/** The two pieces of Rust's `str` API the text formats rely on:
    `str::split(pat)` (every occurrence of the pattern separates two fields,
    scanning left to right without overlap) and `str::lines()` (lines end at
    `\n`, a `\r` just before it is dropped, and a final line ending is
    optional). */
module Text {
  import opened Wrappers

  predicate OccursAt(s: string, pat: string, j: nat) {
    j + |pat| <= |s| && s[j..j + |pat|] == pat
  }

  predicate Contains(s: string, pat: string) {
    exists j: nat :: j <= |s| && OccursAt(s, pat, j)
  }

  /** The first position at or after `from` where `pat` occurs. */
  function FindFrom(s: string, pat: string, from: nat): (r: Option<nat>)
    requires |pat| > 0
    ensures r.Some? ==> from <= r.value && OccursAt(s, pat, r.value)
    ensures r.Some? ==> forall j: nat :: from <= j < r.value ==> !OccursAt(s, pat, j)
    ensures r.None? ==> forall j: nat :: from <= j ==> !OccursAt(s, pat, j)
    decreases |s| - from
  {
    if from + |pat| > |s| then None
    else if s[from..from + |pat|] == pat then Some(from)
    else FindFrom(s, pat, from + 1)
  }

  /** The first occurrence of `pat` in `s`. */
  function Find(s: string, pat: string): (r: Option<nat>)
    requires |pat| > 0
    ensures r.Some? ==> OccursAt(s, pat, r.value) && forall j: nat :: j < r.value ==> !OccursAt(s, pat, j)
    ensures r.None? <==> !Contains(s, pat)
  {
    FindFrom(s, pat, 0)
  }

  /** `s.split(pat).collect::<Vec<&str>>()`. */
  function Split(s: string, pat: string): (parts: seq<string>)
    requires |pat| > 0
    ensures |parts| >= 1
    decreases |s|
  {
    match Find(s, pat)
    case None => [s]
    case Some(i) => [s[..i]] + Split(s[i + |pat|..], pat)
  }

  /** Joins fields with `pat` between them; inverse of `Split`. */
  function Join(parts: seq<string>, pat: string): string
    requires |parts| >= 1
  {
    if |parts| == 1 then parts[0] else parts[0] + pat + Join(parts[1..], pat)
  }

  /** Splitting never loses or invents characters: the separators put
      back between the fields give the original string. */
  lemma {:induction false} JoinSplit(s: string, pat: string)
    requires |pat| > 0
    ensures Join(Split(s, pat), pat) == s
    decreases |s|
  {
    match Find(s, pat)
    case None =>
    case Some(i) =>
      var tail := s[i + |pat|..];
      JoinSplit(tail, pat);
      JoinCons(s[..i], Split(tail, pat), pat);
      Reassemble(s, i, |pat|);
  }

  lemma JoinCons(head: string, rest: seq<string>, pat: string)
    requires |rest| >= 1
    ensures Join([head] + rest, pat) == head + pat + Join(rest, pat)
  {
    assert ([head] + rest)[1..] == rest;
  }

  lemma Reassemble(s: string, i: nat, n: nat)
    requires i + n <= |s|
    ensures s == s[..i] + s[i..i + n] + s[i + n..]
  {
    assert s[..i + n] == s[..i] + s[i..i + n];
  }

  /** The first field is everything before the first occurrence, or the
      whole string when the pattern does not occur. */
  lemma SplitFirst(s: string, pat: string)
    requires |pat| > 0
    ensures Find(s, pat).None? ==> Split(s, pat) == [s]
    ensures Find(s, pat).Some? ==> Split(s, pat)[0] == s[..Find(s, pat).value]
  {
  }

  /** A string that starts with the pattern splits into an empty field
      followed by the fields of the rest. */
  lemma SplitLeading(pat: string, rest: string)
    requires |pat| > 0
    ensures Split(pat + rest, pat) == [""] + Split(rest, pat)
  {
    var s := pat + rest;
    assert OccursAt(s, pat, 0);
    assert s[|pat|..] == rest;
  }

  /** With a one-character separator, fields free of it come back out of
      `Split` unchanged. */
  lemma {:induction false} SplitJoin(parts: seq<string>, c: char)
    requires |parts| >= 1
    requires forall k :: 0 <= k < |parts| ==> c !in parts[k]
    ensures Split(Join(parts, [c]), [c]) == parts
  {
    var s := Join(parts, [c]);
    if |parts| == 1 {
      NoOccurrence(parts[0], c);
    } else {
      var tail := Join(parts[1..], [c]);
      assert s == parts[0] + [c] + tail;
      var i := |parts[0]|;
      assert OccursAt(s, [c], i);
      forall j: nat | j < i
        ensures !OccursAt(s, [c], j)
      {
        assert s[j] == parts[0][j];
        assert s[j..j + 1] == [s[j]];
      }
      assert Find(s, [c]) == Some(i);
      assert s[..i] == parts[0];
      assert s[i + 1..] == tail;
      SplitJoin(parts[1..], c);
    }
  }

  lemma NoOccurrence(s: string, c: char)
    requires c !in s
    ensures !Contains(s, [c])
  {
    forall j: nat | j <= |s|
      ensures !OccursAt(s, [c], j)
    {
      if j + 1 <= |s| {
        assert s[j..j + 1] == [s[j]];
      }
    }
  }

  /** Drops one `\r` at the end of a line. */
  function StripCr(line: string): string {
    if |line| > 0 && line[|line| - 1] == '\r' then line[..|line| - 1] else line
  }

  /** `s.lines()`. */
  function Lines(s: string): (ls: seq<string>)
    ensures |s| == 0 <==> |ls| == 0
    decreases |s|
  {
    if |s| == 0 then []
    else match Find(s, "\n")
      case None => [s]
      case Some(i) => [StripCr(s[..i])] + Lines(s[i + 1..])
  }

  /** Each line followed by `\n`; the inverse of `Lines` on lines that
      hold no line break and do not end in `\r`. */
  function Unlines(ls: seq<string>): string {
    if |ls| == 0 then "" else ls[0] + "\n" + Unlines(ls[1..])
  }

  predicate IsLine(l: string) {
    '\n' !in l && '\r' !in l
  }

  lemma {:induction false} LinesUnlines(ls: seq<string>)
    requires forall k :: 0 <= k < |ls| ==> IsLine(ls[k])
    ensures Lines(Unlines(ls)) == ls
  {
    if |ls| > 0 {
      var s := Unlines(ls);
      var l := ls[0];
      var i := |l|;
      assert s == l + "\n" + Unlines(ls[1..]);
      assert OccursAt(s, "\n", i);
      forall j: nat | j < i
        ensures !OccursAt(s, "\n", j)
      {
        assert s[j] == l[j];
        assert s[j..j + 1] == [s[j]];
      }
      assert Find(s, "\n") == Some(i);
      assert s[..i] == l;
      assert StripCr(l) == l;
      assert s[i + 1..] == Unlines(ls[1..]);
      LinesUnlines(ls[1..]);
    }
  }
}
