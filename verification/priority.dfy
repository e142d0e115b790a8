/** The priority normaliser of `setTicketPriority`. */
module Priority {
  import opened Nullable
  import opened Text

  const Allowed: set<string> := {"low", "normal", "high", "urgent"}

  /** The lower-cased input when that is an allowed priority, otherwise
      "normal"; an absent or empty input gives "normal". */
  function Normalize(p: Option<string>): (r: string)
    ensures r in Allowed
    ensures Lower(OrEmpty(p)) in Allowed ==> r == Lower(OrEmpty(p))
    ensures Lower(OrEmpty(p)) !in Allowed ==> r == "normal"
  {
    var lowered := Lower(OrEmpty(p));
    if lowered in Allowed then lowered else "normal"
  }

  /** A string without upper-case ASCII letters is its own lower case. */
  lemma LowerOfLowercase(s: string)
    requires forall i :: 0 <= i < |s| ==> !('A' <= s[i] <= 'Z')
    ensures Lower(s) == s
  {
  }

  /** Every allowed priority is already lower case. */
  lemma AllowedAreLowercase(r: string)
    requires r in Allowed
    ensures Lower(r) == r && r != ""
  {
    if r == "low" { LowerOfLowercase("low"); }
    else if r == "normal" { LowerOfLowercase("normal"); }
    else if r == "high" { LowerOfLowercase("high"); }
    else { LowerOfLowercase("urgent"); }
  }

  /** Storing a normalised priority again leaves it as it is. */
  lemma NormalizeIdempotent(p: Option<string>)
    ensures Normalize(Some(Normalize(p))) == Normalize(p)
  {
    AllowedAreLowercase(Normalize(p));
  }

  /** The normaliser ignores ASCII case. */
  lemma NormalizeIgnoresCase(s: string)
    ensures Normalize(Some(s)) == Normalize(Some(Lower(s)))
  {
    LowerIdempotent(s);
  }
}
