/**
 The custom click parameter types of the CLI helpers: a comma-delimited list
 and a key/value mapping, each turning a command-line string (or a value that
 is already structured) into a Python list or dict.
 */
module Cli {
  import opened Wrappers
  import opened Py
  import opened PyStr
  import opened Click

  /** The `-` sentinel, which both types return untouched. */
  const Dash: PyValue := PyStr("-")

  /** The list comprehension `[item_type.convert(item) for item in pieces]`:
      items are converted in order and the first exception ends it. */
  function ConvertEach(itemType: ParamType, pieces: seq<string>): (r: Result<seq<PyValue>, Exc>)
    ensures r.Success? <==> forall i :: 0 <= i < |pieces| ==> itemType.Convert(pieces[i]).Returned?
    ensures r.Success? ==> |r.value| == |pieces|
    ensures r.Success? ==> forall i :: 0 <= i < |pieces| ==> itemType.Convert(pieces[i]) == Returned(r.value[i])
    decreases |pieces|
  {
    if |pieces| == 0 then Success([])
    else
      match itemType.Convert(pieces[0])
      case Raised(e) => Failure(e)
      case Returned(v) =>
        match ConvertEach(itemType, pieces[1..])
        case Failure(e) => Failure(e)
        case Success(vs) => Success([v] + vs)
  }

  /** The exception that ends `ConvertEach` is the one raised by the first item that fails. */
  lemma {:induction false} ConvertEachFirstFailure(itemType: ParamType, pieces: seq<string>, j: nat, e: Exc)
    requires j < |pieces|
    requires forall i :: 0 <= i < j ==> itemType.Convert(pieces[i]).Returned?
    requires itemType.Convert(pieces[j]) == Raised(e)
    ensures ConvertEach(itemType, pieces) == Failure(e)
    decreases j
  {
    if j > 0 {
      assert itemType.Convert(pieces[0]).Returned?;
      ConvertEachFirstFailure(itemType, pieces[1..], j - 1, e);
    }
  }

  /** `CommaDelimitedList(item_type=click.STRING)`. */
  datatype CommaDelimitedList = CommaDelimitedList(itemType: ParamType := StringType)
  {
    /** `CommaDelimitedList.convert`: the sentinels and an existing list come back
        as they are; a string is split on commas and every piece converted, all
        or nothing; anything without `split` is a bad parameter. */
    function Convert(value: PyValue): (r: Outcome)
      ensures value == Dash ==> r == Returned(Dash)
      ensures value == PyNone ==> r == Returned(PyList([]))
      ensures value.PyList? ==> r == Returned(value)
      ensures !value.PyStr? && !value.PyNone? && !value.PyList? ==> r == Raised(BadParameter)
      ensures value.PyStr? && value != Dash ==>
                (r.Returned? <==> forall i :: 0 <= i < |Split(value.s, ",")| ==> itemType.Convert(Split(value.s, ",")[i]).Returned?)
      ensures value.PyStr? && value != Dash && r.Returned? ==>
                && r.value.PyList?
                && |r.value.items| == |Split(value.s, ",")|
                && forall i :: 0 <= i < |r.value.items| ==> itemType.Convert(Split(value.s, ",")[i]) == Returned(r.value.items[i])
      ensures r.Raised? ==> r.error != AttributeError
    {
      if value == Dash then Returned(Dash)
      else if value.PyNone? then Returned(PyList([]))
      else if value.PyList? then Returned(value)
      else if !value.PyStr? then Raised(BadParameter)
      else
        var pieces := Split(value.s, ",");
        var converted := ConvertEach(itemType, pieces);
        if converted.Success? then Returned(PyList(converted.value))
        else
          assert !forall i :: 0 <= i < |pieces| ==> itemType.Convert(pieces[i]).Returned?;
          Raised(FailOnAttributeError(converted.error))
    }
  }

  /** A list converts to as many items as there are commas plus one. */
  lemma CommaListLength(list: CommaDelimitedList, s: string)
    requires PyStr(s) != Dash && list.Convert(PyStr(s)).Returned?
    ensures list.Convert(PyStr(s)).value.PyList?
    ensures |list.Convert(PyStr(s)).value.items| == multiset(s)[','] + 1
  {
    SplitCount(s, ',');
  }

  /** All or nothing: a list is returned only if every piece converts; otherwise
      the first piece that fails decides the exception, an AttributeError
      becoming a bad parameter. */
  lemma CommaListFirstFailure(list: CommaDelimitedList, s: string, j: nat, e: Exc)
    requires PyStr(s) != Dash
    requires j < |Split(s, ",")|
    requires forall i :: 0 <= i < j ==> list.itemType.Convert(Split(s, ",")[i]).Returned?
    requires list.itemType.Convert(Split(s, ",")[j]) == Raised(e)
    ensures list.Convert(PyStr(s)) == Raised(if e == AttributeError then BadParameter else e)
  {
    ConvertEachFirstFailure(list.itemType, Split(s, ","), j, e);
  }

  /** `StrList`, `IntList`: the list types the library exports. */
  const StrList := CommaDelimitedList()
  const IntList := CommaDelimitedList(IntType)

  function Strs(xs: seq<string>): (r: seq<PyValue>)
    ensures |r| == |xs| && forall i :: 0 <= i < |xs| ==> r[i] == PyStr(xs[i])
  {
    seq(|xs|, i requires 0 <= i < |xs| => PyStr(xs[i]))
  }

  /** With string items, joining the converted list with commas gives back the input. */
  lemma StrListRoundTrip(s: string)
    requires s != "-"
    ensures exists xs :: StrList.Convert(PyStr(s)) == Returned(PyList(Strs(xs))) && Join(xs, ",") == s
  {
    var xs := Split(s, ",");
    var r := StrList.Convert(PyStr(s));
    assert r.value.items == Strs(xs);
    JoinSplit(s, ",");
  }

  /** Conversely, a comma-free list of strings survives being joined with commas
      and converted back. */
  lemma StrListOfJoin(xs: seq<string>)
    requires |xs| >= 1 && xs != ["-"]
    requires forall k :: 0 <= k < |xs| ==> ',' !in xs[k]
    ensures StrList.Convert(PyStr(Join(xs, ","))) == Returned(PyList(Strs(xs)))
  {
    var s := Join(xs, ",");
    assert Split(s, ",") == xs by {
      SplitJoin(xs, ',');
    }
    if s == "-" {
      SplitJoin(["-"], ',');
      assert false;
    }
    assert ConvertEach(StringType, xs) == Success(Strs(xs)) by {
      var c := ConvertEach(StringType, xs);
      assert c.Success?;
      assert c.value == Strs(xs);
    }
  }

  /** `IntList.convert("1,2,3")` is `[1, 2, 3]`. */
  lemma IntListExample()
    ensures IntList.Convert(PyStr("1,2,3")) == Returned(PyList([PyInt(1), PyInt(2), PyInt(3)]))
  {
    SplitExample();
    IntItemsExample();
  }

  lemma SplitExample()
    ensures Split("1,2,3", ",") == ["1", "2", "3"]
  {
    var pieces := ["1", "2", "3"];
    assert Join(pieces, ",") == "1,2,3" by {
      JoinCons("1", ["2", "3"], ",");
      JoinCons("2", ["3"], ",");
    }
    SplitJoin(pieces, ',');
  }

  lemma IntItemsExample()
    ensures ConvertEach(IntType, ["1", "2", "3"]) == Success([PyInt(1), PyInt(2), PyInt(3)])
  {
    IntTypeRoundTrip(1);
    IntTypeRoundTrip(2);
    IntTypeRoundTrip(3);
    assert ShowInt(1) == "1" && ShowInt(2) == "2" && ShowInt(3) == "3";
    var converted := ConvertEach(IntType, ["1", "2", "3"]);
    assert converted.value == [PyInt(1), PyInt(2), PyInt(3)];
  }

  /** `KeyValue(item_type=click.STRING, inner_sep="=", outer_sep=",")`. */
  datatype KeyValue = KeyValue(itemType: ParamType := StringType, innerSep: string := "=", outerSep: string := ",")
  {
    /** The separators are non-empty literal strings. */
    predicate Valid()
    {
      |innerSep| > 0 && |outerSep| > 0
    }

    function KeyOf(piece: string): string
      requires Valid()
    {
      Split(piece, innerSep)[0]
    }

    /** One outer piece `key<inner_sep>value`: its key and converted value, or
        the exception it raises. Unpacking `key, val = ...` raises a ValueError
        unless the piece has exactly two parts. */
    function Entry(piece: string): (r: Result<(string, PyValue), Exc>)
      requires Valid()
      ensures r.Success? <==> |Split(piece, innerSep)| == 2 && itemType.Convert(Split(piece, innerSep)[1]).Returned?
      ensures r.Success? ==> r.value.0 == KeyOf(piece) && itemType.Convert(Split(piece, innerSep)[1]) == Returned(r.value.1)
      ensures |Split(piece, innerSep)| != 2 ==> r == Failure(ValueError)
      ensures |Split(piece, innerSep)| == 2 && itemType.Convert(Split(piece, innerSep)[1]).Raised? ==>
                r == Failure(itemType.Convert(Split(piece, innerSep)[1]).error)
    {
      var parts := Split(piece, innerSep);
      if |parts| != 2 then Failure(ValueError)
      else
        match itemType.Convert(parts[1])
        case Returned(v) => Success((parts[0], v))
        case Raised(e) => Failure(e)
    }

    /** The dict the loop builds from the outer pieces, stopping at the first failure. */
    function Collect(pieces: seq<string>): Result<map<string, PyValue>, Exc>
      requires Valid()
      decreases |pieces|
    {
      if |pieces| == 0 then Success(map[])
      else
        match Collect(pieces[..|pieces| - 1])
        case Failure(e) => Failure(e)
        case Success(m) =>
          match Entry(pieces[|pieces| - 1])
          case Failure(e) => Failure(e)
          case Success(kv) => Success(m[kv.0 := kv.1])
    }

    /** What `KeyValue.convert` returns or raises. A string starting with `{`
        is first offered to the JSON/YAML `loader`; when that fails it goes on
        like any other string. */
    function Converted(value: PyValue, loader: string -> Option<PyValue>): (r: Outcome)
      requires Valid()
    {
      if value.PyStr? && |value.s| > 0 && value.s[0] == '{' && loader(value.s).Some? then
        Returned(loader(value.s).value)
      else if value == Dash then Returned(Dash)
      else if value == PyNone then Returned(PyDict(map[]))
      else if value.PyDict? then Returned(value)
      else if !value.PyStr? then Raised(TypeError)
      else
        match Collect(Split(value.s, outerSep))
        case Success(m) => Returned(PyDict(m))
        case Failure(e) => Raised(FailOnAttributeError(e))
    }

    /** `KeyValue.convert`, building the dict one piece at a time. */
    method Convert(value: PyValue, loader: string -> Option<PyValue>) returns (r: Outcome)
      requires Valid()
      ensures r == Converted(value, loader)
    {
      if value.PyStr? && |value.s| > 0 && value.s[0] == '{' {
        var loaded := loader(value.s);
        if loaded.Some? {
          return Returned(loaded.value);
        }
      }
      if value == Dash {
        return Returned(Dash);
      }
      if value == PyNone {
        return Returned(PyDict(map[]));
      }
      if value.PyDict? {
        return Returned(value);
      }
      if !value.PyStr? {
        return Raised(TypeError);
      }
      var pieces := Split(value.s, outerSep);
      var data: map<string, PyValue> := map[];
      var i := 0;
      while i < |pieces|
        invariant 0 <= i <= |pieces|
        invariant Collect(pieces[..i]) == Success(data)
      {
        CollectStep(pieces, i, data);
        var parts := Split(pieces[i], innerSep);
        if |parts| != 2 {
          CollectKeepsFailure(pieces, i + 1);
          return Raised(ValueError);
        }
        var key, val := parts[0], parts[1];
        var converted := itemType.Convert(val);
        if converted.Raised? {
          CollectKeepsFailure(pieces, i + 1);
          return Raised(FailOnAttributeError(converted.error));
        }
        data := data[key := converted.value];
        i := i + 1;
      }
      assert pieces[..i] == pieces;
      r := Returned(PyDict(data));
    }

    /** One more piece: the prefix's dict extended by that piece's entry, or its failure. */
    lemma CollectStep(pieces: seq<string>, i: nat, data: map<string, PyValue>)
      requires Valid() && i < |pieces| && Collect(pieces[..i]) == Success(data)
      ensures var e := Entry(pieces[i]);
              Collect(pieces[..i + 1]) == if e.Success? then Success(data[e.value.0 := e.value.1]) else Failure(e.error)
    {
      assert pieces[..i + 1][..i] == pieces[..i];
    }

    /** Once a prefix of the pieces fails, the whole does, with the same exception. */
    lemma {:induction false} CollectKeepsFailure(pieces: seq<string>, j: nat)
      requires Valid() && j <= |pieces|
      requires Collect(pieces[..j]).Failure?
      ensures Collect(pieces) == Collect(pieces[..j])
      decreases |pieces|
    {
      if j < |pieces| {
        var init := pieces[..|pieces| - 1];
        assert init[..j] == pieces[..j];
        CollectKeepsFailure(init, j);
      } else {
        assert pieces[..j] == pieces;
      }
    }

    /** The dict is built exactly when every piece has a key and a value that converts. */
    lemma {:induction false} CollectSucceeds(pieces: seq<string>)
      requires Valid()
      ensures Collect(pieces).Success? <==> forall i :: 0 <= i < |pieces| ==> Entry(pieces[i]).Success?
      decreases |pieces|
    {
      if |pieces| > 0 {
        var n := |pieces| - 1;
        var init := pieces[..n];
        CollectSucceeds(init);
        assert Collect(pieces).Success? <==> Collect(init).Success? && Entry(pieces[n]).Success?;
        assert forall i :: 0 <= i < |init| ==> init[i] == pieces[i];
      }
    }

    /** The first piece that fails decides the exception. */
    lemma {:induction false} CollectFirstFailure(pieces: seq<string>, j: nat, e: Exc)
      requires Valid() && j < |pieces|
      requires forall i :: 0 <= i < j ==> Entry(pieces[i]).Success?
      requires Entry(pieces[j]) == Failure(e)
      ensures Collect(pieces) == Failure(e)
    {
      var pre := pieces[..j + 1];
      CollectSucceeds(pre[..j]);
      assert forall i :: 0 <= i < j ==> pre[..j][i] == pieces[i];
      assert pre[..j + 1 - 1] == pre[..j];
      assert pieces[..j + 1] == pre;
      CollectKeepsFailure(pieces, j + 1);
    }

    /** The exception that ends the loop is one raised by some piece. */
    lemma {:induction false} CollectRaisesEntryError(pieces: seq<string>, e: Exc)
      requires Valid() && Collect(pieces) == Failure(e)
      ensures exists i :: 0 <= i < |pieces| && Entry(pieces[i]) == Failure(e)
      decreases |pieces|
    {
      var n := |pieces| - 1;
      var init := pieces[..n];
      if Collect(init).Failure? {
        CollectRaisesEntryError(init, e);
        var i :| 0 <= i < |init| && Entry(init[i]) == Failure(e);
        assert init[i] == pieces[i];
      } else {
        assert Entry(pieces[n]) == Failure(e);
      }
    }

    /** Every piece's key is in the dict. */
    lemma {:induction false} CollectHasKey(pieces: seq<string>, i: nat)
      requires Valid() && Collect(pieces).Success? && i < |pieces|
      ensures KeyOf(pieces[i]) in Collect(pieces).value
      decreases |pieces|
    {
      var n := |pieces| - 1;
      if i < n {
        var init := pieces[..n];
        CollectHasKey(init, i);
        assert init[i] == pieces[i];
      }
    }

    /** Every key in the dict is the key of some piece. */
    lemma {:induction false} CollectKeyFromPiece(pieces: seq<string>, k: string)
      requires Valid() && Collect(pieces).Success? && k in Collect(pieces).value
      ensures exists i :: 0 <= i < |pieces| && KeyOf(pieces[i]) == k
      decreases |pieces|
    {
      var n := |pieces| - 1;
      if k != KeyOf(pieces[n]) {
        var init := pieces[..n];
        CollectKeyFromPiece(init, k);
        var i :| 0 <= i < |init| && KeyOf(init[i]) == k;
        assert init[i] == pieces[i];
      }
    }

    /** A later piece overwrites an earlier one with the same key: each key
        holds the value converted from its last occurrence. */
    lemma {:induction false} CollectLastWins(pieces: seq<string>, i: nat)
      requires Valid() && Collect(pieces).Success?
      requires i < |pieces|
      requires forall j :: i < j < |pieces| ==> KeyOf(pieces[j]) != KeyOf(pieces[i])
      ensures KeyOf(pieces[i]) in Collect(pieces).value
      ensures |Split(pieces[i], innerSep)| == 2
      ensures itemType.Convert(Split(pieces[i], innerSep)[1]) == Returned(Collect(pieces).value[KeyOf(pieces[i])])
      decreases |pieces|
    {
      var n := |pieces| - 1;
      var init := pieces[..n];
      CollectSucceeds(pieces);
      assert Entry(pieces[n]).Success?;
      if i < n {
        assert forall j :: i < j < n ==> init[j] == pieces[j];
        CollectLastWins(init, i);
        assert init[i] == pieces[i];
      }
    }
  }

  /** `StrDict`: the key/value type the library exports. */
  const StrDict := KeyValue()

  /** A loader that never parses anything, as when JSON and YAML both fail. */
  function NoLoader(text: string): Option<PyValue> { None }

  /** `-` and None come back as `-` and as an empty list or dict, whatever the
      item type, separators or loader; an existing list or dict is returned as is. */
  lemma SentinelsFirst(list: CommaDelimitedList, kv: KeyValue, loader: string -> Option<PyValue>, value: PyValue)
    requires kv.Valid()
    ensures list.Convert(Dash) == Returned(Dash) && kv.Converted(Dash, loader) == Returned(Dash)
    ensures list.Convert(PyNone) == Returned(PyList([])) && kv.Converted(PyNone, loader) == Returned(PyDict(map[]))
    ensures value.PyList? ==> list.Convert(value) == Returned(value)
    ensures value.PyDict? ==> kv.Converted(value, loader) == Returned(value)
  {
  }

  /** Only a string starting with `{` reaches the loader; when the loader fails,
      the string is split like any other. */
  lemma LoaderOnlyForBraces(kv: KeyValue, loader: string -> Option<PyValue>, value: PyValue)
    requires kv.Valid()
    ensures !(value.PyStr? && |value.s| > 0 && value.s[0] == '{') ==> kv.Converted(value, loader) == kv.Converted(value, NoLoader)
    ensures value.PyStr? && loader(value.s).None? ==> kv.Converted(value, loader) == kv.Converted(value, NoLoader)
    ensures value.PyStr? && |value.s| > 0 && value.s[0] == '{' && loader(value.s).Some? ==>
              kv.Converted(value, loader) == Returned(loader(value.s).value)
  {
  }

  /** A key/value string that the loader does not take is split into pieces
      and handed to the loop. */
  lemma ConvertedString(kv: KeyValue, s: string, loader: string -> Option<PyValue>)
    requires kv.Valid() && s != "-"
    requires |s| > 0 && s[0] == '{' ==> loader(s).None?
    ensures var c := kv.Collect(Split(s, kv.outerSep));
            kv.Converted(PyStr(s), loader) == if c.Success? then Returned(PyDict(c.value)) else Raised(FailOnAttributeError(c.error))
  {
    var v := PyStr(s);
    assert !(|v.s| > 0 && v.s[0] == '{' && loader(v.s).Some?);
    assert v != Dash && v != PyNone && !v.PyDict? && v.PyStr?;
  }

  /** Such a string gives a dict exactly when every piece splits into a key and
      a value that converts. */
  lemma KeyValueAllOrNothing(kv: KeyValue, s: string, loader: string -> Option<PyValue>)
    requires kv.Valid() && s != "-"
    requires |s| > 0 && s[0] == '{' ==> loader(s).None?
    ensures var pieces := Split(s, kv.outerSep);
            kv.Converted(PyStr(s), loader).Returned? <==> forall i :: 0 <= i < |pieces| ==> kv.Entry(pieces[i]).Success?
  {
    ConvertedString(kv, s, loader);
    kv.CollectSucceeds(Split(s, kv.outerSep));
  }

  /** The dict has exactly the keys of the pieces. */
  lemma KeyValueKeys(kv: KeyValue, s: string, loader: string -> Option<PyValue>, k: string)
    requires kv.Valid() && s != "-"
    requires |s| > 0 && s[0] == '{' ==> loader(s).None?
    requires kv.Converted(PyStr(s), loader).Returned?
    ensures kv.Converted(PyStr(s), loader).value.PyDict?
    ensures var pieces := Split(s, kv.outerSep);
            k in kv.Converted(PyStr(s), loader).value.entries <==> exists i :: 0 <= i < |pieces| && kv.KeyOf(pieces[i]) == k
  {
    ConvertedString(kv, s, loader);
    var pieces := Split(s, kv.outerSep);
    if k in kv.Collect(pieces).value {
      kv.CollectKeyFromPiece(pieces, k);
    }
    if exists i :: 0 <= i < |pieces| && kv.KeyOf(pieces[i]) == k {
      var i :| 0 <= i < |pieces| && kv.KeyOf(pieces[i]) == k;
      kv.CollectHasKey(pieces, i);
    }
  }

  /** For a repeated key the last occurrence wins. */
  lemma KeyValueLastWins(kv: KeyValue, s: string, loader: string -> Option<PyValue>, i: nat)
    requires kv.Valid() && s != "-"
    requires |s| > 0 && s[0] == '{' ==> loader(s).None?
    requires kv.Converted(PyStr(s), loader).Returned?
    requires i < |Split(s, kv.outerSep)|
    requires forall j :: i < j < |Split(s, kv.outerSep)| ==>
               kv.KeyOf(Split(s, kv.outerSep)[j]) != kv.KeyOf(Split(s, kv.outerSep)[i])
    ensures kv.Converted(PyStr(s), loader).value.PyDict?
    ensures var piece := Split(s, kv.outerSep)[i];
            && |Split(piece, kv.innerSep)| == 2
            && kv.KeyOf(piece) in kv.Converted(PyStr(s), loader).value.entries
            && kv.itemType.Convert(Split(piece, kv.innerSep)[1]) == Returned(kv.Converted(PyStr(s), loader).value.entries[kv.KeyOf(piece)])
  {
    ConvertedString(kv, s, loader);
    kv.CollectLastWins(Split(s, kv.outerSep), i);
  }

  /** A piece that does not split into exactly two parts raises a ValueError,
      not a bad parameter, when the pieces before it are good. */
  lemma KeyValueValueError(kv: KeyValue, s: string, loader: string -> Option<PyValue>, j: nat)
    requires kv.Valid() && s != "-"
    requires |s| > 0 && s[0] == '{' ==> loader(s).None?
    requires j < |Split(s, kv.outerSep)|
    requires forall i :: 0 <= i < j ==> kv.Entry(Split(s, kv.outerSep)[i]).Success?
    requires |Split(Split(s, kv.outerSep)[j], kv.innerSep)| != 2
    ensures kv.Converted(PyStr(s), loader) == Raised(ValueError)
  {
    ConvertedString(kv, s, loader);
    kv.CollectFirstFailure(Split(s, kv.outerSep), j, ValueError);
  }

  /** An exception raised by the item converter for a well-formed piece, after
      good pieces, propagates, an AttributeError becoming a bad parameter. */
  lemma KeyValueItemError(kv: KeyValue, s: string, loader: string -> Option<PyValue>, j: nat, e: Exc)
    requires kv.Valid() && s != "-"
    requires |s| > 0 && s[0] == '{' ==> loader(s).None?
    requires j < |Split(s, kv.outerSep)|
    requires forall i :: 0 <= i < j ==> kv.Entry(Split(s, kv.outerSep)[i]).Success?
    requires |Split(Split(s, kv.outerSep)[j], kv.innerSep)| == 2
    requires kv.itemType.Convert(Split(Split(s, kv.outerSep)[j], kv.innerSep)[1]) == Raised(e)
    ensures kv.Converted(PyStr(s), loader) == Raised(FailOnAttributeError(e))
  {
    ConvertedString(kv, s, loader);
    kv.CollectFirstFailure(Split(s, kv.outerSep), j, e);
  }

  /** With string values nothing but the shape of the pieces can fail: the
      result is a ValueError exactly when some piece is not `key=value`. */
  lemma StrValuesValueError(kv: KeyValue, s: string, loader: string -> Option<PyValue>)
    requires kv.Valid() && kv.itemType.StringType? && s != "-"
    requires |s| > 0 && s[0] == '{' ==> loader(s).None?
    ensures var pieces := Split(s, kv.outerSep);
            kv.Converted(PyStr(s), loader) == Raised(ValueError) <==>
              exists i :: 0 <= i < |pieces| && |Split(pieces[i], kv.innerSep)| != 2
  {
    var pieces := Split(s, kv.outerSep);
    ConvertedString(kv, s, loader);
    kv.CollectSucceeds(pieces);
    var c := kv.Collect(pieces);
    if c.Failure? {
      kv.CollectRaisesEntryError(pieces, c.error);
    }
  }

  /** A piece `key<c>value` whose key and value do not contain `c` splits into exactly those two. */
  lemma SplitPair(key: string, val: string, c: char)
    requires c !in key && c !in val
    ensures Split(key + [c] + val, [c]) == [key, val]
  {
    JoinCons(key, [val], [c]);
    SplitJoin([key, val], c);
  }

  /** `StrDict.convert("foo=bar")` is `{"foo": "bar"}`. */
  lemma StrDictExample(loader: string -> Option<PyValue>)
    ensures StrDict.Converted(PyStr("foo=bar"), loader) == Returned(PyDict(map["foo" := PyStr("bar")]))
  {
    var piece := "foo=bar";
    assert Split(piece, ",") == [piece] by {
      SplitJoin([piece], ',');
    }
    assert Split(piece, "=") == ["foo", "bar"] by {
      assert piece == "foo" + ['='] + "bar";
      SplitPair("foo", "bar", '=');
    }
    assert StrDict.Collect([piece]) == Success(map["foo" := PyStr("bar")]) by {
      assert [piece][..0] == [];
    }
    ConvertedString(StrDict, piece, loader);
  }

  /** Two pairs `k1<i>v1<o>k2<i>v2` over one-character separators give the
      dict of both pairs, the second key winning if the keys are equal. */
  lemma TwoPairs(kv: KeyValue, k1: string, v1: string, k2: string, v2: string, x1: PyValue, x2: PyValue)
    requires kv.Valid() && |kv.innerSep| == 1 && |kv.outerSep| == 1
    requires var i, o := kv.innerSep[0], kv.outerSep[0];
             i != o && i !in k1 + v1 + k2 + v2 && o !in k1 + v1 + k2 + v2
    requires kv.itemType.Convert(v1) == Returned(x1) && kv.itemType.Convert(v2) == Returned(x2)
    ensures kv.Collect(Split(k1 + kv.innerSep + v1 + kv.outerSep + k2 + kv.innerSep + v2, kv.outerSep))
              == Success(map[k1 := x1, k2 := x2])
  {
    var i, o := kv.innerSep[0], kv.outerSep[0];
    assert kv.innerSep == [i] && kv.outerSep == [o];
    var p1, p2 := k1 + [i] + v1, k2 + [i] + v2;
    assert i !in k1 && i !in v1 && i !in k2 && i !in v2 && o !in p1 && o !in p2 by {
      assert k1 + v1 + k2 + v2 == k1 + (v1 + (k2 + v2));
      assert multiset(p1) == multiset(k1) + multiset([i]) + multiset(v1);
      assert multiset(p2) == multiset(k2) + multiset([i]) + multiset(v2);
    }
    assert Split(k1 + [i] + v1 + [o] + k2 + [i] + v2, [o]) == [p1, p2] by {
      assert k1 + [i] + v1 + [o] + k2 + [i] + v2 == p1 + [o] + p2;
      SplitPair(p1, p2, o);
    }
    assert kv.Entry(p1) == Success((k1, x1)) by {
      SplitPair(k1, v1, i);
    }
    assert kv.Entry(p2) == Success((k2, x2)) by {
      SplitPair(k2, v2, i);
    }
    assert kv.Collect([p1]) == Success(map[k1 := x1]) by {
      assert [p1][..0] == [];
    }
    assert [p1, p2][..1] == [p1];
  }

  /** A string with no outer separator is one piece; if that piece does not
      split into exactly two parts the result is a ValueError. */
  lemma OneMalformedPiece(kv: KeyValue, s: string, loader: string -> Option<PyValue>)
    requires kv.Valid() && |kv.outerSep| == 1 && kv.outerSep[0] !in s && s != "-"
    requires |s| > 0 && s[0] == '{' ==> loader(s).None?
    requires |Split(s, kv.innerSep)| != 2
    ensures kv.Converted(PyStr(s), loader) == Raised(ValueError)
  {
    var o := kv.outerSep[0];
    assert kv.outerSep == [o];
    SplitJoin([s], o);
    KeyValueValueError(kv, s, loader, 0);
  }

  /** `StrDict.convert("foo=bar,baz=blah")` is `{"foo": "bar", "baz": "blah"}`. */
  lemma StrDictTwoPairsExample(loader: string -> Option<PyValue>)
    ensures StrDict.Converted(PyStr("foo=bar,baz=blah"), loader)
              == Returned(PyDict(map["foo" := PyStr("bar"), "baz" := PyStr("blah")]))
  {
    var s := "foo=bar,baz=blah";
    assert StrDict.Collect(Split(s, ",")) == Success(map["foo" := PyStr("bar"), "baz" := PyStr("blah")]) by {
      assert s == "foo" + "=" + "bar" + "," + "baz" + "=" + "blah";
      TwoPairs(StrDict, "foo", "bar", "baz", "blah", PyStr("bar"), PyStr("blah"));
    }
    ConvertedString(StrDict, s, loader);
  }

  /** `StrDict.convert("foo")` raises a ValueError: the piece has no `=`. */
  lemma StrDictMissingValueExample(loader: string -> Option<PyValue>)
    ensures StrDict.Converted(PyStr("foo"), loader) == Raised(ValueError)
  {
    assert |Split("foo", "=")| == 1 by {
      SplitJoin(["foo"], '=');
    }
    OneMalformedPiece(StrDict, "foo", loader);
  }

  /** `StrDict.convert("a=b=c")` raises a ValueError: the piece has three parts. */
  lemma StrDictTooManyPartsExample(loader: string -> Option<PyValue>)
    ensures StrDict.Converted(PyStr("a=b=c"), loader) == Raised(ValueError)
  {
    var s := "a=b=c";
    assert |Split(s, "=")| == 3 by {
      var parts := ["a", "b", "c"];
      assert Join(parts, "=") == s by {
        JoinCons("a", ["b", "c"], "=");
        JoinCons("b", ["c"], "=");
      }
      SplitJoin(parts, '=');
    }
    assert ',' !in s;
    OneMalformedPiece(StrDict, s, loader);
  }

  /** `KeyValue(item_type=click.INT, inner_sep=":", outer_sep=";")` converts
      `"foo:1;bar:2"` to `{"foo": 1, "bar": 2}`. */
  lemma CustomSeparatorsExample(loader: string -> Option<PyValue>)
    ensures KeyValue(IntType, ":", ";").Converted(PyStr("foo:1;bar:2"), loader)
              == Returned(PyDict(map["foo" := PyInt(1), "bar" := PyInt(2)]))
  {
    var kv := KeyValue(IntType, ":", ";");
    var s := "foo:1;bar:2";
    assert IntType.Convert("1") == Returned(PyInt(1)) by {
      IntTypeRoundTrip(1);
      assert ShowInt(1) == "1";
    }
    assert IntType.Convert("2") == Returned(PyInt(2)) by {
      IntTypeRoundTrip(2);
      assert ShowInt(2) == "2";
    }
    assert kv.Collect(Split(s, ";")) == Success(map["foo" := PyInt(1), "bar" := PyInt(2)]) by {
      assert s == "foo" + ":" + "1" + ";" + "bar" + ":" + "2";
      TwoPairs(kv, "foo", "1", "bar", "2", PyInt(1), PyInt(2));
    }
    ConvertedString(kv, s, loader);
  }

  /** An item type that raises AttributeError makes `"foo=bar"` a bad parameter. */
  lemma BrokenItemTypeExample(loader: string -> Option<PyValue>)
    ensures KeyValue(CustomType(_ => Raised(AttributeError))).Converted(PyStr("foo=bar"), loader) == Raised(BadParameter)
  {
    var kv := KeyValue(CustomType(_ => Raised(AttributeError)));
    var piece := "foo=bar";
    assert Split(piece, ",") == [piece] by {
      SplitJoin([piece], ',');
    }
    assert Split(piece, "=") == ["foo", "bar"] by {
      assert piece == "foo" + ['='] + "bar";
      SplitPair("foo", "bar", '=');
    }
    kv.CollectFirstFailure([piece], 0, AttributeError);
    ConvertedString(kv, piece, loader);
  }

  /** `'{"foo": "bar"}'` is whatever the loader makes of it; if the loader
      fails it is split like any other string, and raises a ValueError. */
  lemma BraceStringExample(loader: string -> Option<PyValue>)
    ensures var s := "{\"foo\": \"bar\"}";
            StrDict.Converted(PyStr(s), loader) == if loader(s).Some? then Returned(loader(s).value) else Raised(ValueError)
  {
    var s := "{\"foo\": \"bar\"}";
    if loader(s).None? {
      assert |Split(s, "=")| == 1 by {
        SplitJoin([s], '=');
      }
      OneMalformedPiece(StrDict, s, loader);
    }
  }
}
