/**
 * Enumerated settings (config.c): names to values and back. A value is the set of its bits; for a setting that takes
 * several names the bits of all of them are put together.
 */
module ConfigEnum {
  import opened Base

  datatype Entry = Entry(name: string, bits: set<nat>)

  function LowerChar(c: char): char {
    if 'A' <= c <= 'Z' then (c as int + 32) as char else c
  }

  function Lower(s: string): (r: string)
    ensures |r| == |s|
  {
    seq(|s|, i requires 0 <= i < |s| => LowerChar(s[i]))
  }

  /** strcasecmp finds no difference. */
  predicate SameName(a: string, b: string) {
    Lower(a) == Lower(b)
  }

  /** The same character, or the two cases of one letter. */
  predicate SameLetter(c: char, d: char) {
    || c == d
    || ('A' <= c <= 'Z' && d as int == c as int - 'A' as int + 'a' as int)
    || ('A' <= d <= 'Z' && c as int == d as int - 'A' as int + 'a' as int)
  }

  /** Names are the same exactly when they differ in nothing but the case of letters. */
  lemma {:induction false} SameNameUpToCase(a: string, b: string)
    ensures SameName(a, b) <==> |a| == |b| && forall i :: 0 <= i < |a| ==> SameLetter(a[i], b[i])
  {
    forall i | 0 <= i < |a| && i < |b| ensures Lower(a)[i] == Lower(b)[i] <==> SameLetter(a[i], b[i]) {
      LowerSame(a[i], b[i]);
    }
  }

  lemma LowerSame(c: char, d: char)
    ensures LowerChar(c) == LowerChar(d) <==> SameLetter(c, d)
  {
    assert ('a' as int) - ('A' as int) == 32;
    assert 'A' <= c <= 'Z' ==> LowerChar(c) as int == c as int + 32;
    assert 'A' <= d <= 'Z' ==> LowerChar(d) as int == d as int + 32;
  }

  ghost predicate Known(table: seq<Entry>, arg: string) {
    exists e :: e in table && SameName(arg, e.name)
  }

  /** The bits of every entry that some argument names. */
  ghost predicate IsUnionOf(bits: set<nat>, table: seq<Entry>, argv: seq<string>) {
    forall b :: b in bits <==> exists a, e :: a in argv && e in table && SameName(a, e.name) && b in e.bits
  }

  /** Nothing stands for INT_MIN, the source's error value. */
  method GetValue(table: seq<Entry>, argv: seq<string>, bitflags: bool) returns (r: Option<set<nat>>)
    ensures r.None? <==> argv == [] || (!bitflags && |argv| != 1) || exists a :: a in argv && !Known(table, a)
    ensures r.Some? ==> IsUnionOf(r.value, table, argv)
  {
    if argv == [] || (!bitflags && |argv| != 1) {
      return None;
    }
    var values: set<nat> := {};
    var i := 0;
    while i < |argv|
      invariant 0 <= i <= |argv|
      invariant forall a :: a in argv[..i] ==> Known(table, a)
      invariant IsUnionOf(values, table, argv[..i])
    {
      var bits, matched := BitsOf(table, argv[i]);
      if !matched {
        assert argv[i] in argv;
        return None;
      }
      MoreArguments(table, argv, i, values, bits);
      values := values + bits;
      i := i + 1;
    }
    assert argv[..i] == argv;
    return Some(values);
  }

  lemma MoreArguments(table: seq<Entry>, argv: seq<string>, i: nat, values: set<nat>, bits: set<nat>)
    requires i < |argv| && IsUnionOf(values, table, argv[..i])
    requires forall b :: b in bits <==> exists e :: e in table && SameName(argv[i], e.name) && b in e.bits
    ensures IsUnionOf(values + bits, table, argv[..i + 1])
    ensures forall a :: a in argv[..i + 1] <==> a in argv[..i] || a == argv[i]
  {
    assert forall a :: a in argv[..i + 1] <==> a in argv[..i] || a == argv[i];
    hide SameName;
    forall b
      ensures b in values + bits <==> exists a, e :: a in argv[..i + 1] && e in table && SameName(a, e.name) && b in e.bits
    {
      if b in values {
        var a, e :| a in argv[..i] && e in table && SameName(a, e.name) && b in e.bits;
        assert a in argv[..i + 1];
      } else if b in bits {
        var e :| e in table && SameName(argv[i], e.name) && b in e.bits;
        assert argv[i] in argv[..i + 1];
      }
      if a, e :| a in argv[..i + 1] && e in table && SameName(a, e.name) && b in e.bits {
        assert a in argv[..i] || a == argv[i];
        assert b in values || b in bits;
      }
    }
  }

  /** The inner loop: the table is searched to its end even after a match. */
  method BitsOf(table: seq<Entry>, arg: string) returns (bits: set<nat>, matched: bool)
    ensures matched <==> Known(table, arg)
    ensures forall b :: b in bits <==> exists e :: e in table && SameName(arg, e.name) && b in e.bits
  {
    bits, matched := {}, false;
    var k := 0;
    while k < |table|
      invariant 0 <= k <= |table|
      invariant matched <==> Known(table[..k], arg)
      invariant forall b :: b in bits <==> exists e :: e in table[..k] && SameName(arg, e.name) && b in e.bits
    {
      assert forall e :: e in table[..k + 1] <==> e in table[..k] || e == table[k];
      if SameName(arg, table[k].name) {
        bits := bits + table[k].bits;
        matched := true;
      }
      k := k + 1;
    }
    assert table[..k] == table;
  }

  /** The entries taken for a value, first to last, and the bits they leave over. */
  function Greedy(table: seq<Entry>, values: set<nat>): (r: (seq<Entry>, set<nat>)) {
    if table == [] then ([], values)
    else
      var (taken, unmatched) := Greedy(table[..|table| - 1], values);
      var e := table[|table| - 1];
      if e.bits != {} && e.bits <= unmatched then (taken + [e], unmatched - e.bits) else (taken, unmatched)
  }

  function Exact(table: seq<Entry>, values: set<nat>): (r: Option<Entry>)
    ensures r.Some? ==> r.value in table && r.value.bits == values
    ensures r.None? ==> forall e :: e in table ==> e.bits != values
  {
    if table == [] then None
    else if table[0].bits == values then Some(table[0])
    else Exact(table[1..], values)
  }

  function NamesOf(es: seq<Entry>): (r: seq<string>)
    ensures |r| == |es|
  {
    seq(|es|, i requires 0 <= i < |es| => es[i].name)
  }

  /** Nothing stands for the answer "unknown". */
  function Names(table: seq<Entry>, values: set<nat>, bitflags: bool): (r: Option<seq<string>>) {
    if Exact(table, values).Some? then Some([Exact(table, values).value.name])
    else if bitflags && Greedy(table, values).0 != [] && Greedy(table, values).1 == {} then
      Some(NamesOf(Greedy(table, values).0))
    else None
  }

  method GetName(table: seq<Entry>, values: set<nat>, bitflags: bool) returns (r: Option<seq<string>>)
    ensures r == Names(table, values, bitflags)
  {
    var names: seq<string> := [];
    var unmatched := values;
    var k := 0;
    while k < |table|
      invariant 0 <= k <= |table|
      invariant forall e :: e in table[..k] ==> e.bits != values
      invariant bitflags ==> Greedy(table[..k], values).1 == unmatched && NamesOf(Greedy(table[..k], values).0) == names
      invariant !bitflags ==> names == []
    {
      if values == table[k].bits {
        FirstExact(table, values, k);
        return Some([table[k].name]);
      }
      assert table[..k + 1][..k] == table[..k] && table[..k + 1][k] == table[k];
      if bitflags && table[k].bits != {} && table[k].bits <= unmatched {
        names := names + [table[k].name];
        unmatched := unmatched - table[k].bits;
      }
      k := k + 1;
    }
    assert table[..k] == table;
    if names == [] || unmatched != {} {
      return None;
    }
    return Some(names);
  }

  lemma {:induction false} FirstExact(table: seq<Entry>, values: set<nat>, k: nat)
    requires k < |table| && table[k].bits == values && forall e :: e in table[..k] ==> e.bits != values
    ensures Exact(table, values) == Some(table[k])
  {
    if k > 0 {
      assert table[0] in table[..k];
      assert forall e :: e in table[1..][..k - 1] ==> e in table[..k];
      FirstExact(table[1..], values, k - 1);
    }
  }

  // ------------------------------------------------------------------ there and back

  ghost predicate UniqueNames(table: seq<Entry>) {
    forall d, e :: d in table && e in table && SameName(d.name, e.name) ==> d == e
  }

  lemma {:induction false} GreedyTakes(table: seq<Entry>, values: set<nat>)
    ensures forall e :: e in Greedy(table, values).0 ==> e in table
    ensures Greedy(table, values).1 <= values
    ensures forall b ::
      (b in values && b !in Greedy(table, values).1 <==> exists e :: e in Greedy(table, values).0 && b in e.bits)
  {
    if table != [] {
      var init, e := table[..|table| - 1], table[|table| - 1];
      assert table == init + [e];
      GreedyTakes(init, values);
      var taken := Greedy(init, values).0;
      assert forall d :: d in taken + [e] <==> d in taken || d == e;
    }
  }

  /** The next entry is taken exactly when it has bits, all of them in the value and none in an entry taken before. */
  lemma {:induction false} GreedyRule(table: seq<Entry>, e: Entry, values: set<nat>)
    ensures var taken := Greedy(table, values).0;
      var takes := e.bits != {} && e.bits <= values && forall d :: d in taken ==> d.bits !! e.bits;
      Greedy(table + [e], values).0 == if takes then taken + [e] else taken
  {
    GreedyTakes(table, values);
    GreedyLast(table, e, values);
    hide Greedy;
    var (taken, unmatched) := Greedy(table, values);
    if forall d :: d in taken ==> d.bits !! e.bits {
      assert e.bits <= values ==> forall b :: b in e.bits ==> b in unmatched;
    }
  }

  /** Whatever CONFIG GET answers, short of "unknown", sets the same value again. */
  lemma NamesReadBack(table: seq<Entry>, values: set<nat>, bitflags: bool)
    requires UniqueNames(table) && Names(table, values, bitflags).Some?
    ensures var names := Names(table, values, bitflags).value;
      && names != [] && (bitflags || |names| == 1)
      && (forall a :: a in names ==> Known(table, a))
      && IsUnionOf(values, table, names)
  {
    var names := Names(table, values, bitflags).value;
    var es := if Exact(table, values).Some? then [Exact(table, values).value] else Greedy(table, values).0;
    GreedyTakes(table, values);
    assert names == NamesOf(es);
    assert forall b :: b in values <==> exists e :: e in es && b in e.bits by {
      if Exact(table, values).Some? {
        assert forall e :: e in es <==> e == es[0];
      }
    }
    NamesStandFor(table, es, values);
  }

  lemma NamesStandFor(table: seq<Entry>, es: seq<Entry>, values: set<nat>)
    requires UniqueNames(table) && forall e :: e in es ==> e in table
    requires forall b :: b in values <==> exists e :: e in es && b in e.bits
    ensures forall a :: a in NamesOf(es) ==> Known(table, a)
    ensures IsUnionOf(values, table, NamesOf(es))
  {
    var names := NamesOf(es);
    forall a | a in names
      ensures exists e :: e in es && e.name == a
    {
      var i :| 0 <= i < |names| && names[i] == a;
      assert es[i] in es && es[i].name == a;
    }
    forall e | e in es
      ensures e.name in names
    {
      var i :| 0 <= i < |es| && es[i] == e;
      assert names[i] == e.name;
    }
    forall b
      ensures b in values <==> exists a, e :: a in names && e in table && SameName(a, e.name) && b in e.bits
    {
      if b in values {
        var e :| e in es && b in e.bits;
        assert e.name in names && SameName(e.name, e.name);
      }
      if a, e :| a in names && e in table && SameName(a, e.name) && b in e.bits {
        var d :| d in es && d.name == a;
        assert d == e;
      }
    }
  }

  /** Two entries share no bits, or the larger one comes first. */
  ghost predicate HighToLow(table: seq<Entry>) {
    forall i, j :: 0 <= i < j < |table| ==> table[i].bits !! table[j].bits || table[j].bits <= table[i].bits
  }

  /** An entry all of whose bits belong to the value leaves none of them over: it is taken, or a larger one was. */
  lemma {:induction false} NestedLeavesNothing(table: seq<Entry>, values: set<nat>, k: nat)
    requires HighToLow(table) && k < |table| && table[k].bits <= values
    ensures table[k].bits !! Greedy(table, values).1
  {
    var n := |table| - 1;
    var init, last := table[..n], table[n];
    if k < n {
      NestedLeavesNothing(init, values, k);
    } else {
      TakenBefore(init, values, last);
    }
  }

  /** A later, smaller or foreign entry is still whole, or already gone with a larger one. */
  lemma {:induction false} TakenBefore(table: seq<Entry>, values: set<nat>, e: Entry)
    requires e.bits <= values
    requires forall i :: 0 <= i < |table| ==> table[i].bits !! e.bits || e.bits <= table[i].bits
    ensures e.bits <= Greedy(table, values).1 || e.bits !! Greedy(table, values).1
  {
    if table != [] {
      TakenBefore(table[..|table| - 1], values, e);
    }
  }

  /** When entries are sorted high to low, every value that can be set has a name. */
  lemma {:induction false} SettableIsNamed(table: seq<Entry>, argv: seq<string>, values: set<nat>)
    requires HighToLow(table) && argv != [] && (forall a :: a in argv ==> Known(table, a))
    requires IsUnionOf(values, table, argv)
    ensures Names(table, values, true).Some?
  {
    hide Greedy, Exact, HighToLow, IsUnionOf, Known;
    if values == {} {
      NamedWhenEmpty(table, argv);
    } else {
      GreedyTakes(table, values);
      forall b | b in values ensures b !in Greedy(table, values).1 {
        var k := SourceOf(table, argv, values, b);
        NestedLeavesNothing(table, values, k);
      }
      var b :| b in values;
    }
  }

  lemma {:induction false} NamedBitsBelong(table: seq<Entry>, argv: seq<string>, values: set<nat>, a: string, e: Entry)
    requires IsUnionOf(values, table, argv) && a in argv && e in table && SameName(a, e.name)
    ensures e.bits <= values
  {
    forall b | b in e.bits ensures b in values {
    }
  }

  /** A bit of a value that was set comes from an entry whose bits were all set. */
  lemma {:induction false} SourceOf(table: seq<Entry>, argv: seq<string>, values: set<nat>, b: nat) returns (k: nat)
    requires IsUnionOf(values, table, argv) && b in values
    ensures k < |table| && b in table[k].bits && table[k].bits <= values
  {
    var a, e :| a in argv && e in table && SameName(a, e.name) && b in e.bits;
    k :| 0 <= k < |table| && table[k] == e;
    NamedBitsBelong(table, argv, values, a, e);
  }

  /** Setting names without any bits: the first of them names the empty value. */
  lemma {:induction false} NamedWhenEmpty(table: seq<Entry>, argv: seq<string>)
    requires argv != [] && (forall a :: a in argv ==> Known(table, a)) && IsUnionOf({}, table, argv)
    ensures Exact(table, {}).Some?
  {
    assert argv[0] in argv && Known(table, argv[0]);
    var e :| e in table && SameName(argv[0], e.name);
    NamedBitsBelong(table, argv, {}, argv[0], e);
  }

  /** Giving the names of both entries sets the bits of both. */
  lemma {:induction false} BothNames(d: Entry, e: Entry)
    ensures IsUnionOf(d.bits + e.bits, [d, e], [d.name, e.name])
  {
    var table, names, bits := [d, e], [d.name, e.name], d.bits + e.bits;
    assert d in table && e in table && d.name in names && e.name in names;
    assert forall x :: x in table <==> x == d || x == e;
    forall b
      ensures b in bits <==> exists a, x :: a in names && x in table && SameName(a, x.name) && b in x.bits
    {
      if b in d.bits {
        assert SameName(d.name, d.name);
      } else if b in e.bits {
        assert SameName(e.name, e.name);
      }
    }
  }

  /**
   * With two entries whose names are given together, the value has a name exactly when the entries are disjoint or one
   * contains the other; properly overlapping entries make it unknown.
   */
  lemma {:induction false} OverlapIsUnknown(d: Entry, e: Entry)
    ensures IsUnionOf(d.bits + e.bits, [d, e], [d.name, e.name])
    ensures Names([d, e], d.bits + e.bits, true).Some? <==>
            d.bits !! e.bits || d.bits <= e.bits || e.bits <= d.bits
  {
    BothNames(d, e);
    TwoExact(d, e, d.bits + e.bits);
    hide Greedy, Exact, IsUnionOf;
    assert d.bits <= e.bits <==> e.bits == d.bits + e.bits;
    assert e.bits <= d.bits <==> d.bits == d.bits + e.bits;
    if !(d.bits <= e.bits) && !(e.bits <= d.bits) {
      TwoGreedy(d, e);
      var rest :| rest in e.bits && rest !in d.bits;
      assert rest in e.bits - d.bits;
    }
  }

  lemma {:induction false} TwoExact(d: Entry, e: Entry, values: set<nat>)
    ensures Exact([d, e], values).Some? <==> d.bits == values || e.bits == values
  {
    assert d in [d, e] && e in [d, e] && forall x :: x in [d, e] <==> x == d || x == e;
  }

  lemma {:induction false} TwoGreedy(d: Entry, e: Entry)
    requires !(d.bits <= e.bits) && !(e.bits <= d.bits)
    ensures d.bits != {} && e.bits != {}
    ensures Greedy([d, e], d.bits + e.bits) ==
            if d.bits !! e.bits then ([d, e], {}) else ([d], e.bits - d.bits)
  {
    var bits, left := d.bits + e.bits, e.bits - d.bits;
    var rest :| rest in e.bits && rest !in d.bits;
    assert rest in left && bits - d.bits == left;
    GreedyLast([], d, bits);
    GreedyLast([d], e, bits);
    assert [] + [d] == [d] && [d] + [e] == [d, e];
    if d.bits !! e.bits {
      assert left == e.bits && left - e.bits == {};
    } else {
      var b :| b in d.bits && b in e.bits;
      assert b !in left;
    }
  }

  lemma {:induction false} GreedyLast(init: seq<Entry>, e: Entry, values: set<nat>)
    ensures Greedy(init + [e], values) ==
            var (taken, unmatched) := Greedy(init, values);
            if e.bits != {} && e.bits <= unmatched then (taken + [e], unmatched - e.bits) else (taken, unmatched)
  {
    assert (init + [e])[..|init|] == init;
  }
}
