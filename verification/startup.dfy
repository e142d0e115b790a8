/** Startup validation of the bot process: the credential and application
    id read from the environment, and whether the bot then logs in. The HTTP
    liveness endpoint is served either way and is not part of this model. */
module Startup {
  import opened Nullable
  import opened Text

  /** The environment variables the check reads; `None` is an unset variable. */
  datatype Env = Env(discordToken: Option<string>, discordClientId: Option<string>, clientId: Option<string>)

  /** `process.env.DISCORD_TOKEN || ''` */
  function Token(env: Env): (r: string)
    ensures r == "" <==> !Truthy(env.discordToken)
    ensures Truthy(env.discordToken) ==> r == env.discordToken.value
  {
    OrEmpty(env.discordToken)
  }

  /** `process.env.DISCORD_CLIENT_ID || process.env.CLIENT_ID || ''`: the first
      of the two that is set and non-empty. */
  function AppId(env: Env): (r: string)
    ensures Truthy(env.discordClientId) ==> r == env.discordClientId.value
    ensures !Truthy(env.discordClientId) ==> r == OrEmpty(env.clientId)
    ensures r != "" <==> Truthy(env.discordClientId) || Truthy(env.clientId)
  {
    OrEmpty(if Truthy(env.discordClientId) then env.discordClientId else env.clientId)
  }

  /** The outcome of the check, one variant per message it logs. */
  datatype EnvCheck = EnvOk | MissingToken | MalformedToken | MissingAppId

  /** The token shape test: exactly two dots (so three dot-separated parts)
      and no "Bot " prefix. */
  predicate WellFormedToken(token: string) {
    Occurrences(token, '.') == 2 && !StartsWith(token, "Bot ")
  }

  /** The checks of `validateEnv`, in the order it makes them: a missing
      token first, then its shape, then the application id. */
  function CheckEnv(env: Env): (r: EnvCheck)
    ensures r == MissingToken <==> Token(env) == ""
    ensures r == MalformedToken <==> Token(env) != "" && !WellFormedToken(Token(env))
    ensures r == MissingAppId <==> Token(env) != "" && WellFormedToken(Token(env)) && AppId(env) == ""
    ensures r == EnvOk <==> Token(env) != "" && WellFormedToken(Token(env)) && AppId(env) != ""
  {
    var token := Token(env);
    if token == "" then MissingToken
    else if !(|Split(token, '.')| == 3 && !StartsWith(token, "Bot ")) then MalformedToken
    else if AppId(env) == "" then MissingAppId
    else EnvOk
  }

  /** `validateEnv`: true exactly when the token is set, has three
      dot-separated parts, lacks the "Bot " prefix, and an application id is
      set under either name. */
  function ValidateEnv(env: Env): (ok: bool)
    ensures ok <==> && Truthy(env.discordToken)
                    && Occurrences(env.discordToken.value, '.') == 2
                    && !StartsWith(env.discordToken.value, "Bot ")
                    && (Truthy(env.discordClientId) || Truthy(env.clientId))
  {
    CheckEnv(env) == EnvOk
  }

  datatype StartOutcome = StayOffline | Login(token: string)

  /** `startBot`: logs in with the configured token only when validation
      passes; otherwise the process keeps running without a platform
      connection. */
  function StartBot(env: Env): (r: StartOutcome)
    ensures r.Login? <==> ValidateEnv(env)
    ensures r.Login? ==> env.discordToken == Some(r.token) && r.token != ""
  {
    if !ValidateEnv(env) then StayOffline else Login(env.discordToken.value)
  }
}
