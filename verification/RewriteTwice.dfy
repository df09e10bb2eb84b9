/**
 * CONFIG REWRITE run twice with the same configuration: the second run leaves the non-blank lines alone exactly when,
 * for every processed option, no forced emission follows an unforced one among those beyond the option's old lines.
 */
module RewriteTwice {
  import opened Base
  import opened RewriteSpec
  import opened RewriteLaws

  // ------------------------------------------------------------------ emissions of one option

  function AllTexts(em: seq<(string, bool)>): (r: seq<string>)
    ensures |r| == |em|
  {
    seq(|em|, i requires 0 <= i < |em| => em[i].0)
  }

  function ForcedTexts(em: seq<(string, bool)>): (r: seq<string>)
    ensures |r| <= |em|
  {
    if em == [] then [] else ForcedTexts(em[..|em| - 1]) + if em[|em| - 1].1 then [em[|em| - 1].0] else []
  }

  /** Beyond the first n emissions, forced ones come first. */
  ghost predicate ForcedFirst(em: seq<(string, bool)>, n: nat) {
    forall i, j :: n <= i < j < |em| && em[j].1 ==> em[i].1
  }

  /** The first n emissions are written whatever their flags, the later ones only when forced. */
  lemma {:induction false} WrittenForm(em: seq<(string, bool)>, n: nat)
    ensures |em| <= n ==> Written(em, n) == (AllTexts(em), n - |em|)
    ensures |em| >= n ==> Written(em, n) == (AllTexts(em[..n]) + ForcedTexts(em[n..]), 0)
  {
    if |em| <= n {
      if em != [] {
        WrittenForm(em[..|em| - 1], n);
        assert AllTexts(em) == AllTexts(em[..|em| - 1]) + [em[|em| - 1].0];
      }
      if |em| == n {
        assert em[..n] == em && em[n..] == [] && AllTexts(em) + [] == AllTexts(em);
      }
    } else {
      var init := em[..|em| - 1];
      WrittenForm(init, n);
      assert init[..n] == em[..n];
      var tail, last := em[n..], em[|em| - 1];
      assert tail[..|tail| - 1] == init[n..] && tail[|tail| - 1] == last;
      assert AllTexts(em[..n]) + ForcedTexts(init[n..]) + [last.0] == AllTexts(em[..n]) + (ForcedTexts(init[n..]) + [last.0]);
      assert ForcedTexts(tail) == if last.1 then ForcedTexts(init[n..]) + [last.0] else ForcedTexts(init[n..]);
    }
  }

  lemma {:induction false} ForcedConcat(a: seq<(string, bool)>, b: seq<(string, bool)>)
    ensures ForcedTexts(a + b) == ForcedTexts(a) + ForcedTexts(b)
  {
    if b == [] {
      assert a + b == a;
    } else {
      assert (a + b)[..|a + b| - 1] == a + b[..|b| - 1];
      ForcedConcat(a, b[..|b| - 1]);
    }
  }

  lemma {:induction false} ForcedLast(em: seq<(string, bool)>)
    requires em != []
    ensures var init, last := em[..|em| - 1], em[|em| - 1];
      && ForcedTexts(em) == (if last.1 then ForcedTexts(init) + [last.0] else ForcedTexts(init))
      && AllTexts(em) == AllTexts(init) + [last.0]
      && ((forall i :: 0 <= i < |em| ==> em[i].1) <==> (forall i :: 0 <= i < |init| ==> init[i].1) && last.1)
      && ((forall i :: 0 <= i < |em| ==> !em[i].1) <==> (forall i :: 0 <= i < |init| ==> !init[i].1) && !last.1)
  {
    var init, last := em[..|em| - 1], em[|em| - 1];
    assert em == init + [last];
    assert AllTexts(em) == AllTexts(init) + [last.0];
    assert forall i :: 0 <= i < |em| ==> em[i] == if i < |init| then init[i] else last;
  }

  lemma {:induction false} ForcedExtremes(em: seq<(string, bool)>)
    ensures |ForcedTexts(em)| == |em| <==> forall i :: 0 <= i < |em| ==> em[i].1
    ensures (forall i :: 0 <= i < |em| ==> em[i].1) ==> ForcedTexts(em) == AllTexts(em)
    ensures ForcedTexts(em) == [] <==> forall i :: 0 <= i < |em| ==> !em[i].1
  {
    if em == [] {
      assert AllTexts(em) == [];
    } else {
      ForcedExtremes(em[..|em| - 1]);
      ForcedLast(em);
    }
  }

  /** Where the forced emissions end. */
  lemma {:induction false} Boundary(em: seq<(string, bool)>, n: nat) returns (p: nat)
    requires ForcedFirst(em, n) && n <= |em|
    ensures n <= p <= |em|
    ensures forall i :: n <= i < p ==> em[i].1
    ensures forall i :: p <= i < |em| ==> !em[i].1
    decreases |em| - n
  {
    if n == |em| || !em[n].1 {
      p := n;
    } else {
      p := Boundary(em, n + 1);
    }
  }

  lemma SplitForced(em: seq<(string, bool)>, n: nat, p: nat)
    requires n <= p <= |em|
    ensures ForcedTexts(em[n..]) == ForcedTexts(em[n..p]) + ForcedTexts(em[p..])
    ensures AllTexts(em[..p]) == AllTexts(em[..n]) + AllTexts(em[n..p])
  {
    ForcedConcat(em[n..p], em[p..]);
    assert em[n..] == em[n..p] + em[p..];
  }

  lemma {:induction false} StableIfForcedFirst(em: seq<(string, bool)>, n: nat)
    requires ForcedFirst(em, n)
    ensures Written(em, |Written(em, n).0|).0 == Written(em, n).0
  {
    hide Written, ForcedTexts;
    WrittenForm(em, n);
    if |em| > n {
      var p := Boundary(em, n);
      SplitForced(em, n, p);
      ForcedExtremes(em[n..p]);
      ForcedExtremes(em[p..]);
      assert Written(em, n).0 == AllTexts(em[..p]);
      WrittenForm(em, p);
    } else {
      WrittenForm(em, |em|);
      assert em[..|em|] == em && em[|em|..] == [];
    }
  }

  lemma {:induction false} ForcedFirstIfStable(em: seq<(string, bool)>, n: nat)
    requires |Written(em, |Written(em, n).0|).0| == |Written(em, n).0|
    ensures ForcedFirst(em, n)
  {
    hide Written, ForcedTexts, AllTexts;
    WrittenForm(em, n);
    if |em| > n {
      var m := |Written(em, n).0|;
      WrittenForm(em, m);
      SplitForced(em, n, m);
      ForcedExtremes(em[n..m]);
      ForcedExtremes(em[m..]);
      var middle, tail := em[n..m], em[m..];
      assert forall k :: m <= k < |em| ==> em[k] == tail[k - m];
      assert forall k :: n <= k < m ==> em[k] == middle[k - n];
    }
  }

  lemma {:induction false} WrittenGrows(em: seq<(string, bool)>, k: nat, n: nat)
    requires k <= |em|
    ensures Written(em[..k], n).0 <= Written(em, n).0
    decreases |em| - k
  {
    if k < |em| {
      WrittenGrows(em, k + 1, n);
      assert em[..k + 1][..k] == em[..k];
    } else {
      assert em[..k] == em;
    }
  }

  lemma {:induction false} EmissionsGrow(es: seq<Event>, k: nat, o: string)
    requires k <= |es|
    ensures EmissionsOf(es[..k], o) <= EmissionsOf(es, o)
    decreases |es| - k
  {
    if k < |es| {
      EmissionsGrow(es, k + 1, o);
      assert es[..k + 1][..k] == es[..k];
    } else {
      assert es[..k] == es;
    }
  }

  // ------------------------------------------------------------------ reading back

  /** A line the reader takes over as it stands. */
  ghost predicate Readable(syn: Syntax, t: string) {
    Trim(t) == t && OneLine(t) && (Comment(t) || syn(t).Some?)
  }

  ghost predicate WellTagged(syn: Syntax, lines: seq<Line>) {
    forall i :: 0 <= i < |lines| ==> Readable(syn, lines[i].text) && lines[i].tag == TagOf(syn, lines[i].text)
  }

  /** Every emitted line reads back as a line of its option. */
  ghost predicate Emittable(syn: Syntax, es: seq<Event>) {
    forall e :: e in es && e.Emit? ==> Readable(syn, e.text) && TagOf(syn, e.text) == Some(e.option)
  }

  lemma {:induction false} SolidIsTrimmed(s: string)
    requires s != [] ==> !IsBlank(s[0]) && !IsBlank(s[|s| - 1])
    ensures Trim(s) == s
  {
  }

  lemma ReadLineReadable(syn: Syntax, raw: string)
    requires OneLine(raw)
    ensures var l := ReadLine(syn, raw);
      Readable(syn, l.text) && l.tag == TagOf(syn, l.text) && !l.used
  {
    var t := Trim(raw);
    TrimTrimmed(raw);
    SolidIsTrimmed(t);
    if !Comment(t) {
      SolidIsTrimmed(UNKNOWN_PREFIX + t);
    }
  }

  lemma ReadFileTagged(syn: Syntax, content: string)
    ensures WellTagged(syn, ReadFile(syn, content).lines)
    ensures forall i :: 0 <= i < |ReadFile(syn, content).lines| ==> !ReadFile(syn, content).lines[i].used
  {
    hide Split, ReadLine, Readable, TagOf;
    if content != [] {
      SplitOneLine(content);
      forall i | 0 <= i < |Split(content)|
        ensures var l := ReadLine(syn, Split(content)[i]);
          Readable(syn, l.text) && l.tag == TagOf(syn, l.text) && !l.used
      {
        ReadLineReadable(syn, Split(content)[i]);
      }
    }
  }

  lemma SpecialLinesReadable(syn: Syntax)
    ensures Readable(syn, []) && TagOf(syn, []) == None
    ensures Readable(syn, SIGNATURE) && TagOf(syn, SIGNATURE) == None
  {
    SolidIsTrimmed(SIGNATURE);
  }

  lemma RewriteLineTagged(syn: Syntax, d: Doc, o: string, text: string, force: bool)
    requires WellTagged(syn, d.lines) && Readable(syn, text) && TagOf(syn, text) == Some(o)
    ensures WellTagged(syn, RewriteLine(d, o, text, force).lines)
  {
    SpecialLinesReadable(syn);
    hide FreeIndexes, Readable, TagOf;
  }

  lemma {:induction false} RunTagged(syn: Syntax, d: Doc, es: seq<Event>)
    requires WellTagged(syn, d.lines) && Emittable(syn, es)
    ensures WellTagged(syn, Run(d, es).lines)
  {
    if es != [] {
      hide RewriteLine, Readable, TagOf, WellTagged;
      var init, e := es[..|es| - 1], es[|es| - 1];
      assert es == init + [e];
      RunTagged(syn, d, init);
      if e.Emit? {
        RewriteLineTagged(syn, Run(d, init), e.option, e.text, e.force);
      }
    }
  }

  lemma RewrittenTagged(syn: Syntax, content: string, es: seq<Event>)
    requires Emittable(syn, es)
    ensures WellTagged(syn, Rewritten(syn, content, es).lines)
  {
    ReadFileTagged(syn, content);
    RunTagged(syn, ReadFile(syn, content), es);
    SpecialLinesReadable(syn);
    hide Run, ReadFile, Readable, TagOf;
  }

  // ------------------------------------------------------------------ non-blank lines

  function NonBlank(lines: seq<string>): (r: seq<string>) {
    if lines == [] then []
    else NonBlank(lines[..|lines| - 1]) + if lines[|lines| - 1] == [] then [] else [lines[|lines| - 1]]
  }

  lemma {:induction false} CollapseKeepsNonBlank(lines: seq<string>)
    ensures NonBlank(Collapse(lines)) == NonBlank(lines)
    ensures forall t :: t in Collapse(lines) ==> t in lines
  {
    if lines != [] {
      var n := |lines| - 1;
      CollapseKeepsNonBlank(lines[..n]);
      var c := Collapse(lines[..n]);
      assert (c + [lines[n]])[..|c|] == c && c + [] == c;
      assert NonBlank(lines[..n]) + [] == NonBlank(lines[..n]);
    }
  }

  lemma {:induction false} NonBlankEnd(lines: seq<string>)
    ensures NonBlank(lines + [[]]) == NonBlank(lines)
  {
    assert (lines + [[]])[..|lines|] == lines;
  }

  /** The non-blank lines of a file. */
  function FileLines(content: string): seq<string> {
    NonBlank(Split(content))
  }

  lemma TextsReadable(syn: Syntax, lines: seq<Line>)
    requires WellTagged(syn, lines)
    ensures forall t :: t in Texts(lines) ==> Readable(syn, t)
  {
    forall t | t in Texts(lines)
      ensures Readable(syn, t)
    {
      var i :| 0 <= i < |Texts(lines)| && Texts(lines)[i] == t;
      assert lines[i].text == t;
    }
  }

  /** The collapsed lines, written to a file, are its lines; read back, they are the same texts. */
  lemma {:induction false} ReadBack(syn: Syntax, lines: seq<Line>)
    requires WellTagged(syn, lines)
    ensures var content := Join(Collapse(Texts(lines)));
      && FileLines(content) == NonBlank(Texts(lines))
      && NonBlank(Texts(ReadFile(syn, content).lines)) == NonBlank(Texts(lines))
  {
    var c := Collapse(Texts(lines));
    CollapseKeepsNonBlank(Texts(lines));
    TextsReadable(syn, lines);
    assert forall t :: t in c ==> Readable(syn, t);
    hide Collapse, NonBlank, Readable, Texts, FileLines, ReadFile, WellTagged, Join;
    NonBlankEnd(c);
    ReadJoined(syn, c);
  }

  lemma {:induction false} ReadJoined(syn: Syntax, c: seq<string>)
    requires forall t :: t in c ==> Readable(syn, t)
    ensures FileLines(Join(c)) == NonBlank(c + [[]])
    ensures NonBlank(Texts(ReadFile(syn, Join(c)).lines)) == NonBlank(c + [[]])
  {
    assert forall i :: 0 <= i < |c| ==> c[i] in c && Readable(syn, c[i]);
    SplitJoin(c);
    if c == [] {
      NonBlankEnd(c);
      assert c + [[]] == [[]] && NonBlank([]) == [];
    } else {
      SpecialLinesReadable(syn);
      var raws := c + [[]];
      hide NonBlank, Split, Join, Readable;
      assert forall i :: 0 <= i < |raws| ==> raws[i] == [] || raws[i] in c;
      ReadTexts(syn, raws);
    }
  }

  lemma ReadTexts(syn: Syntax, raws: seq<string>)
    requires forall i :: 0 <= i < |raws| ==> Readable(syn, raws[i])
    ensures Texts(ReadLines(syn, raws)) == raws
  {
    hide Trim;
  }

  // ------------------------------------------------------------------ an option's lines by text

  function Owned(syn: Syntax, texts: seq<string>, o: string): (r: seq<string>) {
    if texts == [] then []
    else
      var t := texts[|texts| - 1];
      Owned(syn, texts[..|texts| - 1], o) + if TagOf(syn, t) == Some(o) then [t] else []
  }

  lemma {:induction false} OwnedNonBlank(syn: Syntax, texts: seq<string>, o: string)
    ensures Owned(syn, NonBlank(texts), o) == Owned(syn, texts, o)
  {
    if texts != [] {
      var n := |texts| - 1;
      OwnedNonBlank(syn, texts[..n], o);
      var b := NonBlank(texts[..n]);
      assert (b + [texts[n]])[..|b|] == b && b + [] == b;
      assert Owned(syn, texts[..n], o) + [] == Owned(syn, texts[..n], o);
    }
  }

  lemma {:induction false} NoneOwned(syn: Syntax, lines: seq<Line>, o: string)
    requires lines == []
    ensures Owned(syn, Texts(lines), o) == Select(lines, o, true) == Select(lines, o, false) == []
  {
  }

  lemma {:induction false} OwnedStep(syn: Syntax, lines: seq<Line>, o: string)
    requires lines != []
    ensures var n := |lines| - 1;
      Owned(syn, Texts(lines), o) ==
      Owned(syn, Texts(lines[..n]), o) + if TagOf(syn, lines[n].text) == Some(o) then [lines[n].text] else []
  {
    assert Texts(lines)[..|lines| - 1] == Texts(lines[..|lines| - 1]);
  }

  lemma {:induction false} SelectStep(lines: seq<Line>, o: string, used: bool)
    requires lines != []
    ensures var n := |lines| - 1;
      Select(lines, o, used) ==
      Select(lines[..n], o, used) + if lines[n].tag == Some(o) && lines[n].used == used then [lines[n].text] else []
  {
  }

  lemma {:induction false} OwnedOrdered(syn: Syntax, lines: seq<Line>, o: string)
    requires WellTagged(syn, lines) && Ordered(lines, o)
    ensures Owned(syn, Texts(lines), o) == Select(lines, o, true) + Select(lines, o, false)
  {
    hide Owned, Select, Texts;
    if lines == [] {
      NoneOwned(syn, lines, o);
    } else {
      var n := |lines| - 1;
      var init := lines[..n];
      OwnedOrdered(syn, init, o);
      OwnedStep(syn, lines, o);
      SelectStep(lines, o, true);
      SelectStep(lines, o, false);
      if lines[n].tag == Some(o) && lines[n].used {
        assert forall i :: 0 <= i < n && lines[i].tag == Some(o) ==> lines[i].used;
        SelectNone(init, o, false);
      }
    }
  }

  // ------------------------------------------------------------------ the second run

  /** Same texts for the same options; only the used marks differ. */
  ghost predicate SameText(a: seq<Line>, b: seq<Line>) {
    |a| == |b| && forall i :: 0 <= i < |a| ==> a[i].text == b[i].text && a[i].tag == b[i].tag
  }

  lemma SameTexts(a: seq<Line>, b: seq<Line>)
    requires SameText(a, b)
    ensures Texts(a) == Texts(b)
  {
  }

  /** The lines of a file about o are what the emissions for o would write over them. */
  ghost predicate Settled(lines: seq<Line>, es: seq<Event>, o: string) {
    var texts := Select(lines, o, false);
    Written(EmissionsOf(es, o), |texts|).0 == texts
  }

  /** The next emission for o meets a free line that already holds its text, or is not written at all. */
  lemma {:induction false} NextIsThere(free: seq<string>, used: seq<string>, em: seq<(string, bool)>, k: nat)
    requires k < |em| && Written(em, |used + free|).0 == used + free
    requires Written(em[..k], |used + free|) == (used, |free|)
    ensures if free != [] then em[k].0 == free[0] else !em[k].1
  {
    var n := |used + free|;
    WrittenGrows(em, k + 1, n);
    assert em[..k + 1] == em[..k] + [em[k]];
    WrittenStep(em[..k], em[k].0, em[k].1, n);
    var next := Written(em[..k + 1], n).0;
    assert next == if free != [] || em[k].1 then used + [em[k].0] else used;
    assert next <= used + free;
    if free != [] {
      assert next[|used|] == (used + free)[|used|];
    }
  }

  lemma {:induction false} EmissionAt(es: seq<Event>, k: nat)
    requires k < |es| && es[k].Emit?
    ensures var o := es[k].option;
      var em := EmissionsOf(es, o);
      var j := |EmissionsOf(es[..k], o)|;
      && j < |em|
      && em[..j] == EmissionsOf(es[..k], o)
      && em[j] == (es[k].text, es[k].force)
  {
    var o := es[k].option;
    EmissionsGrow(es, k, o);
    EmissionsGrow(es, k + 1, o);
    assert es[..k + 1][..k] == es[..k];
  }

  /** Given that the lines already settled, one more event changes no text. */
  lemma SettledStep(syn: Syntax, before: Doc, d: Doc, es: seq<Event>, k: nat)
    requires k < |es| && es[k].Emit?
    requires WellTagged(syn, before.lines) && SameText(before.lines, d.lines)
    requires WellTagged(syn, d.lines)
    requires forall i :: 0 <= i < |before.lines| ==> !before.lines[i].used
    requires Settled(before.lines, es, es[k].option)
    requires var o := es[k].option;
      At(d.lines, o, Written(EmissionsOf(es[..k], o), |Select(before.lines, o, false)|))
    ensures SameText(before.lines, Apply(d, es[k]).lines)
  {
    var e := es[k];
    var o := e.option;
    var used, free := Select(d.lines, o, true), Select(d.lines, o, false);
    hide WellTagged, EmissionsOf, Written, Select;
    assert Select(before.lines, o, false) == used + free by {
      hide Settled;
      SameTexts(before.lines, d.lines);
      SelectNone(before.lines, o, true);
      OwnedOrdered(syn, before.lines, o);
      OwnedOrdered(syn, d.lines, o);
      assert [] + Select(before.lines, o, false) == Select(before.lines, o, false);
    }
    EmissionAt(es, k);
    NextIsThere(free, used, EmissionsOf(es, o), |EmissionsOf(es[..k], o)|);
    FreeCount(d.lines, o);
    hide At, Settled, FreeIndexes;
    FreeIsThere(before, d, o, e.text, e.force);
  }

  lemma {:induction false} FreeIsThere(before: Doc, d: Doc, o: string, text: string, force: bool)
    requires SameText(before.lines, d.lines)
    requires |FreeIndexes(d.lines, o)| == |Select(d.lines, o, false)|
    requires Ordered(d.lines, o)
    requires Select(d.lines, o, false) != [] ==> text == Select(d.lines, o, false)[0]
    requires Select(d.lines, o, false) == [] ==> !force
    ensures SameText(before.lines, RewriteLine(d, o, text, force).lines)
  {
    hide Select, Ordered;
    var free := FreeIndexes(d.lines, o);
    if free != [] {
      assert d.lines[free[0]].tag == Some(o);
      ReuseFirstFree(d.lines, o, text);
    }
    hide FreeIndexes;
  }

  lemma {:induction false} SettledEmit(syn: Syntax, before: Doc, es: seq<Event>, k: nat)
    requires k < |es| && es[k].Emit? && Emittable(syn, es) && WellTagged(syn, before.lines)
    requires forall i :: 0 <= i < |before.lines| ==> !before.lines[i].used
    requires Settled(before.lines, es, es[k].option)
    requires SameText(before.lines, Run(before, es[..k]).lines)
    ensures SameText(before.lines, Apply(Run(before, es[..k]), es[k]).lines)
  {
    var o := es[k].option;
    assert Emittable(syn, es[..k]) by {
      hide Readable, TagOf;
      assert forall e :: e in es[..k] ==> e in es;
    }
    hide Emittable, WellTagged, SameText, Settled, At, Run, Apply;
    RunTagged(syn, before, es[..k]);
    NothingUsed(before.lines, o);
    RunWrites(before, es[..k], o, |Select(before.lines, o, false)|);
    SettledStep(syn, before, Run(before, es[..k]), es, k);
  }

  lemma {:induction false} RunStep(d: Doc, es: seq<Event>, k: nat)
    requires k < |es|
    ensures Run(d, es[..k + 1]) == Apply(Run(d, es[..k]), es[k])
  {
    assert es[..k + 1][..k] == es[..k];
  }

  /** A freshly read file in which every option already settled. */
  ghost predicate Steady(syn: Syntax, before: Doc, es: seq<Event>) {
    && Emittable(syn, es)
    && WellTagged(syn, before.lines)
    && (forall i :: 0 <= i < |before.lines| ==> !before.lines[i].used)
    && (forall e :: e in es ==> Settled(before.lines, es, e.option))
  }

  lemma SettledNext(syn: Syntax, before: Doc, es: seq<Event>, k: nat)
    requires k < |es| && Steady(syn, before, es) && SameText(before.lines, Run(before, es[..k]).lines)
    ensures SameText(before.lines, Run(before, es[..k + 1]).lines)
  {
    RunStep(before, es, k);
    hide WellTagged, SameText, Settled, Emittable, Apply, Run;
    assert es[k] in es;
    if es[k].Emit? {
      SettledEmit(syn, before, es, k);
    } else {
      MarkKeepsText(before, Run(before, es[..k]), es[k]);
    }
  }

  /** A steady file keeps every text through the run. */
  lemma {:induction false} SettledRun(syn: Syntax, before: Doc, es: seq<Event>, k: nat)
    requires k <= |es| && Steady(syn, before, es)
    ensures SameText(before.lines, Run(before, es[..k]).lines)
  {
    if k > 0 {
      hide Steady, Run, SameText;
      SettledRun(syn, before, es, k - 1);
      SettledNext(syn, before, es, k - 1);
    } else {
      assert es[..k] == [];
    }
  }

  lemma MarkKeepsText(before: Doc, d: Doc, e: Event)
    requires e.Mark? && SameText(before.lines, d.lines)
    ensures SameText(before.lines, Apply(d, e).lines)
  {
  }

  /** What the first run leaves for a processed option is what the second run reads for it. */
  lemma {:induction false} SecondReads(syn: Syntax, content: string, es: seq<Event>, o: string)
    requires Emittable(syn, es) && o in Processed(es)
    ensures
      var n := |Select(ReadFile(syn, content).lines, o, false)|;
      var again := ReadFile(syn, Rewrite(syn, content, es)).lines;
      && Select(again, o, false) == Written(EmissionsOf(es, o), n).0
      && Owned(syn, Texts(Rewritten(syn, content, es).lines), o) == Written(EmissionsOf(es, o), n).0
  {
    var f := Rewritten(syn, content, es).lines;
    var again := ReadFile(syn, Rewrite(syn, content, es)).lines;
    EmittedInOrder(syn, content, es, o);
    RewrittenTagged(syn, content, es);
    ReadBack(syn, f);
    ReadFileTagged(syn, Rewrite(syn, content, es));
    hide WellTagged, EmissionsOf, Written, Select, ReadFile, Rewritten, Owned, NonBlank, Rewrite, Collapse, Join;
    OwnedNonBlank(syn, Texts(f), o);
    OwnedNonBlank(syn, Texts(again), o);
    NothingLeft(f, o);
    OwnedOrdered(syn, f, o);
    SelectNone(again, o, true);
    OwnedOrdered(syn, again, o);
    assert [] + Select(again, o, false) == Select(again, o, false);
    assert Select(f, o, true) + [] == Select(f, o, true);
  }

  lemma {:induction false} NothingLeft(lines: seq<Line>, o: string)
    requires Select(lines, o, false) == []
    ensures Ordered(lines, o)
  {
    FreeCount(lines, o);
    NothingFree(lines, o);
  }

  /** When every option settled, the second run changes no text. */
  lemma SettledRewrite(syn: Syntax, content: string, es: seq<Event>)
    requires Emittable(syn, es)
    requires forall e :: e in es ==> Settled(ReadFile(syn, content).lines, es, e.option)
    ensures Texts(Rewritten(syn, content, es).lines) == Texts(ReadFile(syn, content).lines)
  {
    var d := ReadFile(syn, content);
    assert {} + Processed(es) == d.processed + Processed(es) == Processed(es);
    ReadFileTagged(syn, content);
    hide WellTagged, Settled, Emittable, ReadFile, Run, SameText;
    SettledRun(syn, d, es, |es|);
    assert es[..|es|] == es;
    forall e | e in es
      ensures NoOrphan(Run(d, es), e.option)
    {
      SettledLeavesNone(syn, d, es, e.option);
    }
    RunProcesses(d, es);
    NothingOrphaned(Run(d, es), es);
    assert SameText(d.lines, Run(d, es).lines);
    SameTexts(d.lines, Run(d, es).lines);
  }

  ghost predicate NoOrphan(d: Doc, o: string) {
    forall i :: 0 <= i < |d.lines| && d.lines[i].tag == Some(o) ==> d.lines[i].used
  }

  lemma {:induction false} SettledLeavesNone(syn: Syntax, d: Doc, es: seq<Event>, o: string)
    requires Settled(d.lines, es, o)
    requires SameText(d.lines, Run(d, es).lines) && WellTagged(syn, d.lines)
    requires forall i :: 0 <= i < |d.lines| ==> !d.lines[i].used
    ensures NoOrphan(Run(d, es), o)
  {
    var lines := Run(d, es).lines;
    assert WellTagged(syn, lines) by {
      hide Readable, TagOf, Run, Settled;
    }
    NothingUsed(d.lines, o);
    hide Run, WellTagged, Select, Written, EmissionsOf, Owned;
    RunWrites(d, es, o, |Select(d.lines, o, false)|);
    SameTexts(d.lines, lines);
    OwnedOrdered(syn, d.lines, o);
    OwnedOrdered(syn, lines, o);
    assert [] + Select(d.lines, o, false) == Select(d.lines, o, false);
    assert |Select(lines, o, false)| == 0;
    FreeCount(lines, o);
    NothingFree(lines, o);
  }

  lemma NothingOrphaned(d: Doc, es: seq<Event>)
    requires d.processed == Processed(es)
    requires forall e :: e in es ==> NoOrphan(d, e.option)
    ensures RemoveOrphaned(d).lines == d.lines
  {
    forall i | 0 <= i < |d.lines|
      ensures Blanked(d.lines[i], d.processed) == d.lines[i]
    {
      var l := d.lines[i];
      if l.tag.Some? && l.tag.value in d.processed {
        var e :| e in es && e.option == l.tag.value;
        assert NoOrphan(d, e.option);
      }
    }
  }

  ghost predicate EachForcedFirst(syn: Syntax, content: string, es: seq<Event>) {
    forall e :: e in es ==>
      ForcedFirst(EmissionsOf(es, e.option), |Select(ReadFile(syn, content).lines, e.option, false)|)
  }

  /**
   * Rewriting twice gives the non-blank lines of rewriting once exactly when each option's emissions, past those that
   * its old lines absorb, put the forced ones first.
   */
  lemma RewriteTwiceIsOnce(syn: Syntax, content: string, es: seq<Event>)
    requires Emittable(syn, es)
    ensures
      var once := Rewrite(syn, content, es);
      FileLines(Rewrite(syn, once, es)) == FileLines(once) <==> EachForcedFirst(syn, content, es)
  {
    var once := Rewrite(syn, content, es);
    var f, g := Rewritten(syn, content, es).lines, Rewritten(syn, once, es).lines;
    RewrittenTagged(syn, content, es);
    RewrittenTagged(syn, once, es);
    ReadBack(syn, f);
    ReadBack(syn, g);
    if EachForcedFirst(syn, content, es) {
      ForcedFirstSettles(syn, content, es);
      SettledRewrite(syn, once, es);
    }
    if FileLines(Rewrite(syn, once, es)) == FileLines(once) {
      forall e | e in es
        ensures ForcedFirst(EmissionsOf(es, e.option), |Select(ReadFile(syn, content).lines, e.option, false)|)
      {
        UnchangedIsForcedFirst(syn, content, es, e.option);
      }
    }
  }

  lemma ForcedFirstSettles(syn: Syntax, content: string, es: seq<Event>)
    requires Emittable(syn, es) && EachForcedFirst(syn, content, es)
    ensures forall e :: e in es ==> Settled(ReadFile(syn, Rewrite(syn, content, es)).lines, es, e.option)
  {
    forall e | e in es
      ensures Settled(ReadFile(syn, Rewrite(syn, content, es)).lines, es, e.option)
    {
      hide Emittable, ReadFile, Rewrite, Select, Written, EmissionsOf, ForcedFirst;
      SecondReads(syn, content, es, e.option);
      StableIfForcedFirst(EmissionsOf(es, e.option), |Select(ReadFile(syn, content).lines, e.option, false)|);
    }
  }

  lemma {:induction false} UnchangedIsForcedFirst(syn: Syntax, content: string, es: seq<Event>, o: string)
    requires Emittable(syn, es) && o in Processed(es)
    requires NonBlank(Texts(Rewritten(syn, Rewrite(syn, content, es), es).lines)) ==
             NonBlank(Texts(Rewritten(syn, content, es).lines))
    ensures ForcedFirst(EmissionsOf(es, o), |Select(ReadFile(syn, content).lines, o, false)|)
  {
    hide *;
    var once := Rewrite(syn, content, es);
    SecondReads(syn, content, es, o);
    SecondReads(syn, once, es, o);
    OwnedNonBlank(syn, Texts(Rewritten(syn, content, es).lines), o);
    OwnedNonBlank(syn, Texts(Rewritten(syn, once, es).lines), o);
    ForcedFirstIfStable(EmissionsOf(es, o), |Select(ReadFile(syn, content).lines, o, false)|);
  }

  /** Options that emit at most one line, or force them all, are stable under rewriting. */
  lemma {:induction false} SingleOrForced(syn: Syntax, content: string, es: seq<Event>)
    requires Emittable(syn, es)
    requires forall e :: e in es ==>
      |EmissionsOf(es, e.option)| <= 1 || forall i :: 0 <= i < |EmissionsOf(es, e.option)| ==> EmissionsOf(es, e.option)[i].1
    ensures var once := Rewrite(syn, content, es);
      FileLines(Rewrite(syn, once, es)) == FileLines(once)
  {
    hide Rewrite, ReadFile, FileLines, Select, EmissionsOf;
    RewriteTwiceIsOnce(syn, content, es);
  }

  // ------------------------------------------------------------------ an option for which it fails

  const BUFFER_LIMIT: string := "client-output-buffer-limit"

  /** One line for each of the three client classes, of which only the replica limit differs from its default. */
  function BufferLimits(normal: string, replica: string, pubsub: string): seq<Event> {
    [Emit(BUFFER_LIMIT, normal, false), Emit(BUFFER_LIMIT, replica, true), Emit(BUFFER_LIMIT, pubsub, false)]
  }

  /** From an empty file only the replica line is written; the next rewrite turns it into the normal line. */
  lemma BufferLimitsMove(syn: Syntax, normal: string, replica: string, pubsub: string)
    requires Emittable(syn, BufferLimits(normal, replica, pubsub))
    ensures var es := BufferLimits(normal, replica, pubsub);
      var once := Rewrite(syn, [], es);
      && FileLines(Rewrite(syn, once, es)) != FileLines(once)
      && Select(Rewritten(syn, [], es).lines, BUFFER_LIMIT, true) == [replica]
      && Select(Rewritten(syn, once, es).lines, BUFFER_LIMIT, true) == [normal, replica]
  {
    var es := BufferLimits(normal, replica, pubsub);
    var once := Rewrite(syn, [], es);
    ThreeEmissions(normal, replica, pubsub);
    assert BUFFER_LIMIT in Processed(es) by {
      assert es[0] in es;
    }
    EmptyFile(syn, BUFFER_LIMIT);
    hide Rewrite, Rewritten, FileLines, Emittable, ReadFile, Select, EmissionsOf, Written, Processed, BufferLimits;
    RewriteTwiceIsOnce(syn, [], es);
    EmittedInOrder(syn, [], es, BUFFER_LIMIT);
    SecondReads(syn, [], es, BUFFER_LIMIT);
    EmittedInOrder(syn, once, es, BUFFER_LIMIT);
    if EachForcedFirst(syn, [], es) {
      FirstIsForcedFirst(syn, es);
      assert false;
    }
  }

  lemma {:induction false} EmptyFile(syn: Syntax, o: string)
    ensures Select(ReadFile(syn, []).lines, o, false) == []
  {
  }

  lemma ThreeEmissions(normal: string, replica: string, pubsub: string)
    ensures var em := EmissionsOf(BufferLimits(normal, replica, pubsub), BUFFER_LIMIT);
      && em == [(normal, false), (replica, true), (pubsub, false)]
      && !ForcedFirst(em, 0)
      && Written(em, 0).0 == [replica]
      && Written(em, 1).0 == [normal, replica]
  {
    var es := BufferLimits(normal, replica, pubsub);
    assert es[..2][..1] == es[..1] && es[..1][..0] == [];
    assert EmissionsOf(es[..1], BUFFER_LIMIT) == [(normal, false)];
    assert EmissionsOf(es[..2], BUFFER_LIMIT) == [(normal, false), (replica, true)];
    var em := [(normal, false), (replica, true), (pubsub, false)];
    hide EmissionsOf;
    assert !ForcedFirst(em, 0) by {
      assert em[1].1 && !em[0].1;
    }
    assert em == [] + [em[0]] + [em[1]] + [em[2]];
    WrittenThree(em[0], em[1], em[2], 0);
    WrittenThree(em[0], em[1], em[2], 1);
  }

  lemma {:induction false} WrittenThree(a: (string, bool), b: (string, bool), c: (string, bool), n: nat)
    requires !a.1 && b.1 && !c.1 && n <= 1
    ensures Written([] + [a] + [b] + [c], n).0 == if n == 0 then [b.0] else [a.0, b.0]
  {
    WrittenStep([], a.0, a.1, n);
    WrittenStep([] + [a], b.0, b.1, n);
    WrittenStep([] + [a] + [b], c.0, c.1, n);
  }

  lemma {:induction false} FirstIsForcedFirst(syn: Syntax, es: seq<Event>)
    requires es != [] && EachForcedFirst(syn, [], es)
    ensures ForcedFirst(EmissionsOf(es, es[0].option), 0)
  {
    assert es[0] in es;
    EmptyFile(syn, es[0].option);
    hide ReadFile, EmissionsOf, ForcedFirst, Select;
  }
}
