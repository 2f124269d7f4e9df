/**
 The string helper of the utility module: turning an identifier such as
 `foo_bar` into the display name `Foo Bar`.
 */
module Utils {
  import opened Wrappers
  import opened Py
  import opened PyStr

  /** The separator `split_capitalize` uses when none is given. */
  const DefaultSeparator: string := "_"

  /** The words of `input.split(sep)`, each capitalized. */
  function PrettyWords(input: string, sep: string): (words: seq<string>)
    requires |sep| > 0
    ensures |words| == |Split(input, sep)|
    ensures forall i :: 0 <= i < |words| ==> words[i] == Capitalize(Split(input, sep)[i])
  {
    var pieces := Split(input, sep);
    seq(|pieces|, i requires 0 <= i < |pieces| => Capitalize(pieces[i]))
  }

  /** `" ".join(pretty_name)`: the display name. */
  function Prettified(input: string, sep: string): string
    requires |sep| > 0
  {
    Join(PrettyWords(input, sep), " ")
  }

  /** `split_capitalize(input_str, sep)`: a None separator means `_`; an empty
      one makes `str.split` raise a ValueError. */
  method SplitCapitalize(inputStr: string, sep: Option<string>) returns (r: Result<string, Exc>)
    ensures sep.None? ==> r == Success(Prettified(inputStr, DefaultSeparator))
    ensures sep == Some("") ==> r == Failure(ValueError)
    ensures sep.Some? && sep.value != "" ==> r == Success(Prettified(inputStr, sep.value))
  {
    var separator := if sep.None? then DefaultSeparator else sep.value;
    if separator == "" {
      return Failure(ValueError);
    }
    var words := Split(inputStr, separator);
    var prettyName: seq<string> := [];
    for k := 0 to |words|
      invariant |prettyName| == k
      invariant forall i :: 0 <= i < k ==> prettyName[i] == Capitalize(words[i])
    {
      prettyName := prettyName + [Capitalize(words[k])];
    }
    assert prettyName == PrettyWords(inputStr, separator);
    r := Success(Join(prettyName, " "));
  }

  /** Every output word is capitalized and differs from its input word only in letter case. */
  lemma WordsCapitalized(input: string, sep: string, i: nat)
    requires |sep| > 0 && i < |PrettyWords(input, sep)|
    ensures IsCapitalized(PrettyWords(input, sep)[i])
    ensures LowerAll(PrettyWords(input, sep)[i]) == LowerAll(Split(input, sep)[i])
  {
    CapitalizeProperties(Split(input, sep)[i]);
  }

  /** With a one-character separator there is one word more than there are separators;
      empty words are kept. */
  lemma WordCount(input: string, c: char)
    ensures |PrettyWords(input, [c])| == multiset(input)[c] + 1
  {
    SplitCount(input, c);
  }

  /** An input without the separator comes out as the capitalized input. */
  lemma NoSeparator(input: string, sep: string)
    requires |sep| > 0 && Free(input, sep)
    ensures Prettified(input, sep) == Capitalize(input)
  {
    assert Split(input, sep) == [input];
  }

  lemma {:induction false} JoinLength(ps: seq<string>, qs: seq<string>, sep: string, sep': string)
    requires |ps| == |qs| && |sep| == |sep'|
    requires forall i :: 0 <= i < |ps| ==> |ps[i]| == |qs[i]|
    ensures |Join(ps, sep)| == |Join(qs, sep')|
    decreases |ps|
  {
    if |ps| > 1 {
      JoinLength(ps[1..], qs[1..], sep, sep');
    }
  }

  /** With a one-character separator the display name is exactly as long as the input:
      each separator becomes one space. */
  lemma SameLength(input: string, c: char)
    ensures |Prettified(input, [c])| == |input|
  {
    var pieces := Split(input, [c]);
    var words := PrettyWords(input, [c]);
    forall i | 0 <= i < |words| ensures |words[i]| == |pieces[i]| {
      CapitalizeProperties(pieces[i]);
    }
    JoinLength(words, pieces, " ", [c]);
    JoinSplit(input, [c]);
  }

  /** `s` with every `c` replaced by a space. */
  function Respaced(s: string, c: char): (r: string)
    ensures |r| == |s|
  {
    seq(|s|, i requires 0 <= i < |s| => if s[i] == c then ' ' else s[i])
  }

  lemma LowerAllConcat(a: string, b: string)
    ensures LowerAll(a + b) == LowerAll(a) + LowerAll(b)
  {
  }

  lemma RespacedConcat(a: string, b: string, c: char)
    ensures Respaced(a + b, c) == Respaced(a, c) + Respaced(b, c)
  {
  }

  /** Lower-casing the joined words gives the same as joining them after lower-casing,
      whether the words were capitalized first or not. */
  lemma {:induction false} LowerAllJoinCapitalized(ps: seq<string>)
    ensures LowerAll(Join(seq(|ps|, i requires 0 <= i < |ps| => Capitalize(ps[i])), " ")) == LowerAll(Join(ps, " "))
    decreases |ps|
  {
    var qs := seq(|ps|, i requires 0 <= i < |ps| => Capitalize(ps[i]));
    if |ps| == 1 {
      CapitalizeProperties(ps[0]);
    } else if |ps| > 1 {
      var tail := ps[1..];
      LowerAllJoinCapitalized(tail);
      assert qs[1..] == seq(|tail|, i requires 0 <= i < |tail| => Capitalize(tail[i]));
      CapitalizeProperties(ps[0]);
      LowerAllConcat(qs[0] + " ", Join(qs[1..], " "));
      LowerAllConcat(qs[0], " ");
      LowerAllConcat(ps[0] + " ", Join(tail, " "));
      LowerAllConcat(ps[0], " ");
    }
  }

  /** Joining pieces free of `c` with `c` and then replacing each `c` by a space
      is joining them with a space. */
  lemma {:induction false} RespacedJoin(ps: seq<string>, c: char)
    requires forall i :: 0 <= i < |ps| ==> c !in ps[i]
    ensures Respaced(Join(ps, [c]), c) == Join(ps, " ")
    decreases |ps|
  {
    if |ps| == 1 {
      assert Respaced(ps[0], c) == ps[0];
    } else if |ps| > 1 {
      RespacedJoin(ps[1..], c);
      RespacedConcat(ps[0] + [c], Join(ps[1..], [c]), c);
      RespacedConcat(ps[0], [c], c);
      assert Respaced(ps[0], c) == ps[0];
    }
  }

  /** With a one-character separator the display name is the input with every
      separator turned into a space, up to letter case. */
  lemma CaseOnlyChange(input: string, c: char)
    ensures LowerAll(Prettified(input, [c])) == LowerAll(Respaced(input, c))
  {
    var pieces := Split(input, [c]);
    assert PrettyWords(input, [c]) == seq(|pieces|, i requires 0 <= i < |pieces| => Capitalize(pieces[i]));
    LowerAllJoinCapitalized(pieces);
    SplitPiecesFree(input, [c]);
    forall i | 0 <= i < |pieces| ensures c !in pieces[i] {
      FreeChar(pieces[i], c);
    }
    RespacedJoin(pieces, c);
    JoinSplit(input, [c]);
  }

  /** Two words joined by a one-character separator come out as their
      capitalized forms joined by a space. */
  lemma TwoWords(a: string, b: string, c: char)
    requires c !in a && c !in b
    ensures Prettified(a + [c] + b, [c]) == Capitalize(a) + " " + Capitalize(b)
  {
    JoinCons(a, [b], [c]);
    SplitJoin([a, b], c);
    assert PrettyWords(a + [c] + b, [c]) == [Capitalize(a), Capitalize(b)];
    JoinCons(Capitalize(a), [Capitalize(b)], " ");
  }

  /** `foo<c>bar`, for a separator `c` that is not a letter of either word, becomes `"Foo Bar"`. */
  lemma FooBar(c: char)
    requires c !in "foo" && c !in "bar"
    ensures Prettified("foo" + [c] + "bar", [c]) == "Foo Bar"
  {
    TwoWords("foo", "bar", c);
    assert Capitalize("foo") == "Foo" by {}
    assert Capitalize("bar") == "Bar" by {}
  }

  /** `split_capitalize("foo_bar")` is `"Foo Bar"`. */
  lemma DefaultSeparatorExample()
    ensures Prettified("foo_bar", DefaultSeparator) == "Foo Bar"
  {
    assert "foo_bar" == "foo" + ['_'] + "bar";
    FooBar('_');
  }

  /** `split_capitalize("foo-bar", sep="-")` is `"Foo Bar"`. */
  lemma CustomSeparatorExample()
    ensures Prettified("foo-bar", "-") == "Foo Bar"
  {
    assert "foo-bar" == "foo" + ['-'] + "bar";
    FooBar('-');
  }

  /** `split_capitalize("foobar")` is `"Foobar"`. */
  lemma NoSeparatorExample()
    ensures Prettified("foobar", DefaultSeparator) == "Foobar"
  {
    FreeChar("foobar", '_');
    NoSeparator("foobar", "_");
  }
}
