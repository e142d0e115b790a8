/** The tag normaliser behind `setTicketTags` and the parser behind
    `getTicketTags`. Tags are stored as one comma-joined string. */
module TagCodec {
  import opened Nullable
  import opened Text

  const TagSeparator := ','

  predicate NoDuplicates(xs: seq<string>) {
    forall i, j :: 0 <= i < j < |xs| ==> xs[i] != xs[j]
  }

  /** Every entry is non-empty and has no surrounding whitespace. */
  predicate Clean(xs: seq<string>) {
    forall i :: 0 <= i < |xs| ==> xs[i] != "" && IsTrimmed(xs[i])
  }

  /** `.map(t => t.trim())` */
  function TrimAll(xs: seq<string>): seq<string> {
    seq(|xs|, i requires 0 <= i < |xs| => Trim(xs[i]))
  }

  /** The position of the first occurrence of `x` in `xs`. */
  function FirstIndex(xs: seq<string>, x: string): (k: nat)
    requires x in xs
    ensures k < |xs| && xs[k] == x
    ensures forall j :: 0 <= j < k ==> xs[j] != x
    decreases |xs|
  {
    if xs[0] == x then 0 else 1 + FirstIndex(xs[1..], x)
  }

  /** Every entry of `ys` occurs in `xs`, and `ys` lists them in the order of
      their first occurrences in `xs`. */
  predicate InFirstOccurrenceOrder(ys: seq<string>, xs: seq<string>) {
    && (forall i :: 0 <= i < |ys| ==> ys[i] in xs)
    && (forall i, j :: 0 <= i < j < |ys| ==> FirstIndex(xs, ys[i]) < FirstIndex(xs, ys[j]))
  }

  /** Appending to a list does not move the first occurrence of an entry
      already in it. */
  lemma FirstIndexPrefix(p: seq<string>, q: seq<string>, y: string)
    requires y in p
    ensures FirstIndex(p + q, y) == FirstIndex(p, y)
  {
    var k := FirstIndex(p, y);
    assert (p + q)[k] == y;
  }

  /** `.filter(Boolean)` on strings: keeps the non-empty entries in order. */
  function DropEmpty(xs: seq<string>): (ys: seq<string>)
    ensures |ys| <= |xs|
    ensures forall y :: y in ys <==> y in xs && y != ""
    decreases |xs|
  {
    if |xs| == 0 then []
    else
      assert xs == [xs[0]] + xs[1..];
      if xs[0] == "" then DropEmpty(xs[1..]) else [xs[0]] + DropEmpty(xs[1..])
  }

  /** Filtering distributes over concatenation, so it keeps the surviving
      entries in their order and with their multiplicity. */
  lemma {:induction false} DropEmptyAppend(a: seq<string>, b: seq<string>)
    ensures DropEmpty(a + b) == DropEmpty(a) + DropEmpty(b)
    decreases |a|
  {
    if |a| == 0 {
      assert a + b == b;
    } else {
      assert (a + b)[0] == a[0];
      assert (a + b)[1..] == a[1..] + b;
      DropEmptyAppend(a[1..], b);
    }
  }

  /** Filtering keeps the relative order of first occurrences of the
      non-empty entries. */
  lemma {:induction false} DropEmptyOrder(xs: seq<string>, y: string, z: string)
    requires y in xs && z in xs && y != "" && z != ""
    ensures FirstIndex(DropEmpty(xs), y) < FirstIndex(DropEmpty(xs), z)
            <==> FirstIndex(xs, y) < FirstIndex(xs, z)
    decreases |xs|
  {
    var x := xs[0];
    var rest := xs[1..];
    assert xs == [x] + rest;
    var d := DropEmpty(rest);
    if x == "" {
      DropEmptyOrder(rest, y, z);
    } else if y != x && z != x {
      DropEmptyOrder(rest, y, z);
      assert DropEmpty(xs) == [x] + d;
      assert FirstIndex(DropEmpty(xs), y) == 1 + FirstIndex(d, y);
      assert FirstIndex(DropEmpty(xs), z) == 1 + FirstIndex(d, z);
    } else {
      assert DropEmpty(xs) == [x] + d;
    }
  }

  /** `Array.from(new Set(xs))`: each distinct entry once, in the order of
      first occurrence. */
  function Dedup(xs: seq<string>): (ys: seq<string>)
    ensures NoDuplicates(ys)
    ensures forall y :: y in ys <==> y in xs
    ensures InFirstOccurrenceOrder(ys, xs)
    decreases |xs|
  {
    if |xs| == 0 then []
    else
      var prefix := xs[..|xs| - 1];
      var init := Dedup(prefix);
      var last := xs[|xs| - 1];
      assert xs == prefix + [last];
      forall y | y in prefix
        ensures FirstIndex(xs, y) == FirstIndex(prefix, y)
      {
        FirstIndexPrefix(prefix, [last], y);
      }
      if last in init then init
      else
        assert FirstIndex(xs, last) == |prefix|;
        init + [last]
  }

  /** The sanitising pipeline of `setTicketTags`; an absent array counts as
      empty. The result holds each distinct non-empty trimmed tag once, in the
      order of first occurrence. */
  function Sanitize(tags: Option<seq<string>>): (r: seq<string>)
    ensures Clean(r) && NoDuplicates(r)
    ensures forall t :: t in r <==> t != "" && t in TrimAll(tags.GetOr([]))
    ensures InFirstOccurrenceOrder(r, TrimAll(tags.GetOr([])))
  {
    var trimmed := TrimAll(tags.GetOr([]));
    assert forall t :: t in trimmed ==> IsTrimmed(t);
    var kept := DropEmpty(trimmed);
    var r := Dedup(kept);
    assert forall i :: 0 <= i < |r| ==> r[i] in r;
    forall i, j | 0 <= i < j < |r|
      ensures FirstIndex(trimmed, r[i]) < FirstIndex(trimmed, r[j])
    {
      DropEmptyOrder(trimmed, r[i], r[j]);
    }
    r
  }

  /** The payload `setTicketTags` stores: the sanitised tags joined with
      commas, which split back into those tags when none contains a comma. */
  function Serialize(tags: Option<seq<string>>): (r: string)
    ensures Sanitize(tags) == [] ==> r == ""
    ensures |Sanitize(tags)| >= 1 && (forall i :: 0 <= i < |Sanitize(tags)| ==> TagSeparator !in Sanitize(tags)[i])
            ==> Split(r, TagSeparator) == Sanitize(tags)
  {
    var san := Sanitize(tags);
    if |san| >= 1 && forall i :: 0 <= i < |san| ==> TagSeparator !in san[i] then
      SplitJoin(san, TagSeparator);
      Join(san, TagSeparator)
    else
      Join(san, TagSeparator)
  }

  /** `getTicketTags` on a stored payload: split on commas, trim, drop empties. */
  function Parse(stored: string): (r: seq<string>)
    ensures Clean(r)
  {
    var trimmed := TrimAll(Split(stored, TagSeparator));
    assert forall t :: t in trimmed ==> IsTrimmed(t);
    var r := DropEmpty(trimmed);
    assert forall i :: 0 <= i < |r| ==> r[i] in r;
    r
  }

  /** An empty payload, the column default, reads back as no tags. */
  lemma ParseEmpty()
    ensures Parse("") == []
  {
    assert Split("", TagSeparator) == [""];
    assert Trim("") == "";
    assert TrimAll([""]) == [""];
    assert DropEmpty([""]) == [];
  }

  /** Dropping empties from a list without empties changes nothing. */
  lemma {:induction false} DropEmptyNoEmpties(xs: seq<string>)
    requires forall i :: 0 <= i < |xs| ==> xs[i] != ""
    ensures DropEmpty(xs) == xs
    decreases |xs|
  {
    if |xs| > 0 {
      DropEmptyNoEmpties(xs[1..]);
      assert xs == [xs[0]] + xs[1..];
    }
  }

  /** Tag round trip: for tags without commas, reading back what
      `setTicketTags` stored yields exactly the sanitised list, so the result
      is trimmed, free of empties and free of duplicates, in first-occurrence
      order (`Sanitize`). */
  lemma TagsRoundTrip(tags: seq<string>)
    requires forall t :: t in tags ==> TagSeparator !in t
    ensures Parse(Serialize(Some(tags))) == Sanitize(Some(tags))
  {
    var san := Sanitize(Some(tags));
    var trimmed := TrimAll(tags);
    forall i | 0 <= i < |trimmed|
      ensures TagSeparator !in trimmed[i]
    {
      assert tags[i] in tags;
      TrimKeepsOut(tags[i], TagSeparator);
    }
    if |san| == 0 {
      assert Split("", TagSeparator) == [""];
      assert TrimAll([""]) == [""];
      assert DropEmpty([""]) == [];
    } else {
      forall i | 0 <= i < |san|
        ensures TagSeparator !in san[i]
      {
        assert san[i] in san;
        assert san[i] in trimmed;
      }
      SplitJoin(san, TagSeparator);
      forall i | 0 <= i < |san|
        ensures Trim(san[i]) == san[i]
      {
        TrimTrimmed(san[i]);
      }
      assert TrimAll(san) == san;
      DropEmptyNoEmpties(san);
    }
  }

  /** The worked example of the tag pipeline: repeated, padded input comes
      back trimmed, once each, in first-occurrence order. */
  lemma SanitizeExample()
    ensures Sanitize(Some(["a", "a", "b", " c "])) == ["a", "b", "c"]
  {
    var trimmed := TrimAll(["a", "a", "b", " c "]);
    TrimTrimmed("a");
    TrimTrimmed("b");
    TrimPaddedLetter();
    assert trimmed == ["a", "a", "b", "c"];
    DropEmptyNoEmpties(trimmed);
    DedupExample();
  }

  lemma TrimPaddedLetter()
    ensures Trim(" c ") == "c"
  {
    assert LeadingSpace(" c ") == 1;
  }

  /** Appending an entry adds it to the deduplicated list exactly when it is new. */
  lemma DedupSnoc(xs: seq<string>, x: string)
    ensures Dedup(xs + [x]) == Dedup(xs) + (if x in xs then [] else [x])
  {
    var ys := xs + [x];
    assert ys[..|ys| - 1] == xs;
    assert ys[|ys| - 1] == x;
  }

  lemma DedupRepeatedHead(a: string, b: string)
    requires a != b
    ensures Dedup([a, a, b]) == [a, b]
  {
    DedupSnoc([], a);
    assert [] + [a] == [a];
    DedupSnoc([a], a);
    assert [a] + [a] == [a, a];
    DedupSnoc([a, a], b);
    assert [a, a] + [b] == [a, a, b];
  }

  lemma DedupExample()
    ensures Dedup(["a", "a", "b", "c"]) == ["a", "b", "c"]
  {
    var a, b, c := "a", "b", "c";
    assert a != b && a != c && b != c;
    DedupRepeatedHead(a, b);
    DedupSnoc([a, a, b], c);
    assert [a, a, b] + [c] == [a, a, b, c];
  }
}
