/**
 Python's `str.find`, `str.split`, `str.join` and `str.capitalize`, restricted
 to what the library uses: a separator is a non-empty literal string, and case
 mapping covers the ASCII letters only.
 */
module PyStr {
  import opened Wrappers

  /** `sep` occurs in `s` starting at index `i`. */
  predicate OccursAt(s: string, sep: string, i: nat)
  {
    i + |sep| <= |s| && s[i..i + |sep|] == sep
  }

  /** `sep` occurs nowhere in `s`. */
  predicate Free(s: string, sep: string)
  {
    forall j: nat | j <= |s| :: !OccursAt(s, sep, j)
  }

  /** The first occurrence of `sep` in `s` at or after `from`, as `str.find` does it. */
  function FindFrom(s: string, sep: string, from: nat): (r: Option<nat>)
    requires |sep| > 0 && from <= |s|
    ensures r.Some? ==> from <= r.value && OccursAt(s, sep, r.value)
    ensures r.Some? ==> forall j: nat :: from <= j < r.value ==> !OccursAt(s, sep, j)
    ensures r.None? ==> forall j: nat :: from <= j ==> !OccursAt(s, sep, j)
    decreases |s| - from
  {
    if from + |sep| > |s| then None
    else if s[from..from + |sep|] == sep then Some(from)
    else FindFrom(s, sep, from + 1)
  }

  function Find(s: string, sep: string): (r: Option<nat>)
    requires |sep| > 0
    ensures r.Some? ==> OccursAt(s, sep, r.value) && forall j: nat :: j < r.value ==> !OccursAt(s, sep, j)
    ensures r.None? <==> Free(s, sep)
  {
    FindFrom(s, sep, 0)
  }

  /** `Find` returns the first occurrence, whatever way that occurrence is known. */
  lemma FindIsFirst(s: string, sep: string, i: nat)
    requires |sep| > 0 && OccursAt(s, sep, i)
    requires forall j: nat :: j < i ==> !OccursAt(s, sep, j)
    ensures Find(s, sep) == Some(i)
  {
    assert i <= |s|;
  }

  /** `s.split(sep)`: the pieces between the non-overlapping occurrences of
      `sep`, found left to right; empty pieces are kept. */
  function Split(s: string, sep: string): (parts: seq<string>)
    requires |sep| > 0
    ensures |parts| >= 1
    decreases |s|
  {
    match Find(s, sep)
    case None => [s]
    case Some(i) => [s[..i]] + Split(s[i + |sep|..], sep)
  }

  /** `sep.join(parts)`. */
  function Join(parts: seq<string>, sep: string): string
    decreases |parts|
  {
    if |parts| == 0 then ""
    else if |parts| == 1 then parts[0]
    else parts[0] + sep + Join(parts[1..], sep)
  }

  lemma JoinCons(p: string, rest: seq<string>, sep: string)
    requires |rest| >= 1
    ensures Join([p] + rest, sep) == p + sep + Join(rest, sep)
  {
    assert ([p] + rest)[1..] == rest;
  }

  /** Joining the pieces of a split with the same separator gives back the input. */
  lemma {:induction false} JoinSplit(s: string, sep: string)
    requires |sep| > 0
    ensures Join(Split(s, sep), sep) == s
    decreases |s|
  {
    match Find(s, sep)
    case None =>
    case Some(i) =>
      var head, tail := s[..i], s[i + |sep|..];
      SplitUnfold(s, sep, i);
      JoinSplit(tail, sep);
      JoinCons(head, Split(tail, sep), sep);
  }

  /** One step of a split: the piece before the first occurrence, then the split of the rest. */
  lemma SplitUnfold(s: string, sep: string, i: nat)
    requires |sep| > 0 && Find(s, sep) == Some(i)
    ensures Split(s, sep) == [s[..i]] + Split(s[i + |sep|..], sep)
    ensures s == s[..i] + sep + s[i + |sep|..]
  {
    assert s[i..i + |sep|] == sep;
    assert s == s[..i] + s[i..i + |sep|] + s[i + |sep|..];
  }

  /** No piece of a split contains the separator. */
  lemma {:induction false} SplitPiecesFree(s: string, sep: string)
    requires |sep| > 0
    ensures forall k :: 0 <= k < |Split(s, sep)| ==> Free(Split(s, sep)[k], sep)
    decreases |s|
  {
    match Find(s, sep)
    case None =>
    case Some(i) =>
      var tail := s[i + |sep|..];
      SplitPiecesFree(tail, sep);
      var head := s[..i];
      forall j: nat ensures !OccursAt(head, sep, j) {
        if OccursAt(head, sep, j) {
          assert head[j..j + |sep|] == s[j..j + |sep|];
          assert OccursAt(s, sep, j);
        }
      }
      assert Split(s, sep) == [head] + Split(tail, sep);
  }

  /** With a one-character separator `c`, an occurrence is just a `c`. */
  lemma OccursAtChar(s: string, c: char, j: nat)
    ensures OccursAt(s, [c], j) <==> j < |s| && s[j] == c
  {
    if j < |s| {
      assert s[j..j + 1] == [s[j]];
    }
  }

  lemma FreeChar(s: string, c: char)
    ensures Free(s, [c]) <==> c !in s
  {
    if Free(s, [c]) {
      forall j | 0 <= j < |s| ensures s[j] != c {
        OccursAtChar(s, c, j);
      }
    } else {
      var j: nat :| OccursAt(s, [c], j);
      OccursAtChar(s, c, j);
    }
  }

  /** With a one-character separator `c`, a split yields one piece more than
      there are `c`s in the input. */
  lemma {:induction false} SplitCount(s: string, c: char)
    ensures |Split(s, [c])| == multiset(s)[c] + 1
    decreases |s|
  {
    match Find(s, [c])
    case None =>
      FreeChar(s, c);
    case Some(i) =>
      var tail := s[i + 1..];
      SplitCount(tail, c);
      OccursAtChar(s, c, i);
      forall j | 0 <= j < i ensures s[..i][j] != c {
        OccursAtChar(s, c, j);
      }
      assert c !in s[..i];
      assert s == s[..i] + [c] + tail by {
        assert s[i] == c;
        assert s == s[..i] + s[i..i + 1] + s[i + 1..];
      }
      assert multiset(s) == multiset(s[..i]) + multiset([c]) + multiset(tail);
  }

  /** The converse round trip: with a one-character separator, splitting the
      join of pieces that do not contain it gives back the pieces. */
  lemma {:induction false} SplitJoin(parts: seq<string>, c: char)
    requires |parts| >= 1
    requires forall k :: 0 <= k < |parts| ==> c !in parts[k]
    ensures Split(Join(parts, [c]), [c]) == parts
    decreases |parts|
  {
    var s := Join(parts, [c]);
    if |parts| == 1 {
      FreeChar(parts[0], c);
    } else {
      var p := parts[0];
      var rest := Join(parts[1..], [c]);
      assert s == p + [c] + rest;
      OccursAtChar(s, c, |p|);
      forall j: nat | j < |p| ensures !OccursAt(s, [c], j) {
        OccursAtChar(s, c, j);
        assert s[j] == p[j];
      }
      FindIsFirst(s, [c], |p|);
      assert s[..|p|] == p;
      assert s[|p| + 1..] == rest;
      SplitJoin(parts[1..], c);
      assert parts == [p] + parts[1..];
    }
  }

  predicate IsAsciiLower(c: char) { 'a' <= c <= 'z' }

  predicate IsAsciiUpper(c: char) { 'A' <= c <= 'Z' }

  function Upper(c: char): (r: char)
    ensures !IsAsciiLower(r)
  {
    if IsAsciiLower(c) then (c as int - 32) as char else c
  }

  function Lower(c: char): (r: char)
    ensures !IsAsciiUpper(r)
  {
    if IsAsciiUpper(c) then (c as int + 32) as char else c
  }

  /** `s.lower()` over ASCII. */
  function LowerAll(s: string): (r: string)
    ensures |r| == |s|
  {
    seq(|s|, i requires 0 <= i < |s| => Lower(s[i]))
  }

  /** `w.capitalize()`: the first character upper-cased, the rest lower-cased. */
  function Capitalize(w: string): (r: string)
  {
    if |w| == 0 then "" else [Upper(w[0])] + LowerAll(w[1..])
  }

  /** A word as `capitalize` leaves it: no lower-case first letter, no upper-case letter after it. */
  predicate IsCapitalized(w: string)
  {
    && (|w| > 0 ==> !IsAsciiLower(w[0]))
    && forall i :: 1 <= i < |w| ==> !IsAsciiUpper(w[i])
  }

  lemma CaseChar(c: char)
    ensures Upper(Upper(c)) == Upper(c) && Lower(Lower(c)) == Lower(c)
    ensures Lower(Upper(c)) == Lower(c)
    ensures !IsAsciiLower(c) ==> Upper(c) == c
    ensures !IsAsciiUpper(c) ==> Lower(c) == c
  {
  }

  /** `capitalize` keeps the length, yields a capitalized word, changes
      nothing but letter case, and is idempotent. */
  lemma CapitalizeProperties(w: string)
    ensures |Capitalize(w)| == |w|
    ensures IsCapitalized(Capitalize(w))
    ensures LowerAll(Capitalize(w)) == LowerAll(w)
    ensures Capitalize(Capitalize(w)) == Capitalize(w)
    ensures IsCapitalized(w) ==> Capitalize(w) == w
  {
    var r := Capitalize(w);
    if |w| > 0 {
      CaseChar(w[0]);
      forall i | 0 <= i < |w| ensures LowerAll(r)[i] == LowerAll(w)[i] && Capitalize(r)[i] == r[i] {
        CaseChar(w[i]);
      }
      if IsCapitalized(w) {
        forall i | 0 <= i < |w| ensures r[i] == w[i] {
          CaseChar(w[i]);
        }
      }
    }
  }
}
