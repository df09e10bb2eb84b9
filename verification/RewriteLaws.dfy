/**
 * What CONFIG REWRITE keeps, and when rewriting twice is the same as rewriting once.
 */
module RewriteLaws {
  import opened Base
  import opened RewriteSpec

  // ------------------------------------------------------------------ which emissions are written

  /** The texts and force flags emitted for one option, in order. */
  function EmissionsOf(es: seq<Event>, o: string): (r: seq<(string, bool)>) {
    if es == [] then []
    else
      var e := es[|es| - 1];
      EmissionsOf(es[..|es| - 1], o) + if e.Emit? && e.option == o then [(e.text, e.force)] else []
  }

  /** The texts that end up in the file when the option has n lines of its own, and how many of those are left. */
  function Written(em: seq<(string, bool)>, n: nat): (r: (seq<string>, nat)) {
    if em == [] then ([], n)
    else
      var (texts, free) := Written(em[..|em| - 1], n);
      var (text, force) := em[|em| - 1];
      if free > 0 then (texts + [text], free - 1)
      else if force then (texts + [text], 0)
      else (texts, 0)
  }

  function Processed(es: seq<Event>): (r: set<string>) {
    set e | e in es :: e.option
  }

  /** Option lines are reused from the top: no unused line stands above a used one. */
  ghost predicate Ordered(lines: seq<Line>, o: string) {
    forall i, j :: 0 <= i < j < |lines| && lines[i].tag == Some(o) && lines[j].tag == Some(o) && lines[j].used ==>
      lines[i].used
  }

  /** One option's state: its written texts, its free lines, and the order between them. */
  ghost predicate At(lines: seq<Line>, o: string, state: (seq<string>, nat)) {
    Ordered(lines, o) && Select(lines, o, true) == state.0 && |Select(lines, o, false)| == state.1
  }

  lemma ReuseKeepsOrder(lines: seq<Line>, o: string, text: string)
    requires Ordered(lines, o) && FreeIndexes(lines, o) != []
    ensures Ordered(lines[FreeIndexes(lines, o)[0] := Line(text, Some(o), true)], o)
  {
    var i := FreeIndexes(lines, o)[0];
    hide FreeIndexes;
    NothingFreeBefore(lines, o);
    assert forall j :: i < j < |lines| && lines[j].tag == Some(o) ==> !lines[j].used;
  }

  lemma {:induction false} SelectConcat(a: seq<Line>, b: seq<Line>, o: string, used: bool)
    ensures Select(a + b, o, used) == Select(a, o, used) + Select(b, o, used)
  {
    if b == [] {
      assert a + b == a;
    } else {
      assert (a + b)[..|a + b| - 1] == a + b[..|b| - 1];
      SelectConcat(a, b[..|b| - 1], o, used);
    }
  }

  lemma {:induction false} SelectNone(lines: seq<Line>, o: string, used: bool)
    requires forall i :: 0 <= i < |lines| && lines[i].tag == Some(o) ==> lines[i].used != used
    ensures Select(lines, o, used) == []
  {
    if lines != [] {
      SelectNone(lines[..|lines| - 1], o, used);
    }
  }

  lemma {:induction false} FreeCount(lines: seq<Line>, o: string)
    ensures |FreeIndexes(lines, o)| == |Select(lines, o, false)|
  {
    if lines != [] {
      FreeCount(lines[..|lines| - 1], o);
    }
  }

  lemma {:induction false} SelectThree(a: seq<Line>, x: Line, b: seq<Line>, o: string, used: bool)
    ensures Select(a + [x] + b, o, used) ==
            Select(a, o, used) + (if x.tag == Some(o) && x.used == used then [x.text] else []) + Select(b, o, used)
  {
    SelectConcat(a + [x], b, o, used);
    SelectConcat(a, [x], o, used);
    assert Select([x], o, used) == (if x.tag == Some(o) && x.used == used then [x.text] else []);
  }

  lemma {:induction false} ReuseBetween(a: seq<Line>, x: Line, b: seq<Line>, o: string, text: string)
    requires x.tag == Some(o) && !x.used && Select(a, o, false) == [] && Select(b, o, true) == []
    ensures var line := Line(text, Some(o), true);
      && Select(a + [line] + b, o, true) == Select(a + [x] + b, o, true) + [text]
      && Select(a + [x] + b, o, false) == [x.text] + Select(a + [line] + b, o, false)
  {
    var line := Line(text, Some(o), true);
    hide Select;
    SelectThree(a, x, b, o, true);
    SelectThree(a, line, b, o, true);
    SelectThree(a, x, b, o, false);
    SelectThree(a, line, b, o, false);
  }

  lemma Around(lines: seq<Line>, i: nat, line: Line)
    requires i < |lines|
    ensures lines == lines[..i] + [lines[i]] + lines[i + 1..]
    ensures lines[i := line] == lines[..i] + [line] + lines[i + 1..]
  {
  }

  lemma {:induction false} OnlyFreeAfter(lines: seq<Line>, o: string, i: nat)
    requires Ordered(lines, o) && i < |lines| && lines[i].tag == Some(o) && !lines[i].used
    ensures Select(lines[i + 1..], o, true) == []
  {
    var below := lines[i + 1..];
    assert forall j :: 0 <= j < |below| ==> below[j] == lines[i + 1 + j];
    SelectNone(below, o, true);
  }

  /** Writing to an option's first free line takes that line and adds the text after the used ones. */
  lemma ReuseFirstFree(lines: seq<Line>, o: string, text: string)
    requires Ordered(lines, o) && FreeIndexes(lines, o) != []
    ensures var i := FreeIndexes(lines, o)[0];
      var lines' := lines[i := Line(text, Some(o), true)];
      && Ordered(lines', o)
      && Select(lines', o, true) == Select(lines, o, true) + [text]
      && Select(lines, o, false) == [lines[i].text] + Select(lines', o, false)
  {
    var i := FreeIndexes(lines, o)[0];
    hide FreeIndexes, Select;
    ReuseKeepsOrder(lines, o, text);
    NothingFreeBefore(lines, o);
    SelectNone(lines[..i], o, false);
    OnlyFreeAfter(lines, o, i);
    hide Ordered;
    ReuseBetween(lines[..i], lines[i], lines[i + 1..], o, text);
    Around(lines, i, Line(text, Some(o), true));
  }

  lemma {:induction false} NothingFreeBefore(lines: seq<Line>, o: string)
    requires FreeIndexes(lines, o) != []
    ensures forall j :: 0 <= j < FreeIndexes(lines, o)[0] && lines[j].tag == Some(o) ==> lines[j].used
    ensures FreeIndexes(lines, o)[0] < |lines|
  {
    var n := |lines| - 1;
    if FreeIndexes(lines[..n], o) != [] {
      NothingFreeBefore(lines[..n], o);
    } else {
      NothingFree(lines[..n], o);
    }
  }

  lemma {:induction false} NothingFree(lines: seq<Line>, o: string)
    requires FreeIndexes(lines, o) == []
    ensures forall j :: 0 <= j < |lines| && lines[j].tag == Some(o) ==> lines[j].used
  {
    if lines != [] {
      NothingFree(lines[..|lines| - 1], o);
    }
  }

  /** Writing one option's line touches no other option. */
  lemma ReuseElsewhere(lines: seq<Line>, i: nat, line: Line, o: string, used: bool)
    requires i < |lines| && lines[i].tag == line.tag != Some(o)
    ensures Select(lines[i := line], o, used) == Select(lines, o, used)
  {
    hide Select;
    Around(lines, i, line);
    SelectThree(lines[..i], lines[i], lines[i + 1..], o, used);
    SelectThree(lines[..i], line, lines[i + 1..], o, used);
  }

  lemma {:induction false} SelectLast(init: seq<Line>, line: Line, o: string, used: bool)
    ensures Select(init + [line], o, used) ==
            Select(init, o, used) + if line.tag == Some(o) && line.used == used then [line.text] else []
  {
    assert (init + [line])[..|init|] == init;
  }

  lemma {:induction false} AppendKeeps(d: Doc, o: string, text: string, p: string, used: bool)
    ensures Select(AppendLine(d, o, text).lines, p, used) ==
            Select(d.lines, p, used) + if o == p && used then [text] else []
  {
    var mark := Line(SIGNATURE, None, false);
    var line := Line(text, Some(o), true);
    var base := if d.signed then d.lines else d.lines + [mark];
    hide Select;
    SelectLast(d.lines, mark, p, used);
    SelectLast(base, line, p, used);
    assert AppendLine(d, o, text).lines == base + [line];
  }

  lemma {:induction false} AppendKeepsOrder(d: Doc, o: string, text: string, p: string)
    requires Ordered(d.lines, p) && (o == p ==> FreeIndexes(d.lines, p) == [])
    ensures Ordered(AppendLine(d, o, text).lines, p)
  {
    if o == p {
      NothingFree(d.lines, p);
    }
  }

  /** One event moves each option as Written says. */
  lemma {:induction false} WrittenStep(em: seq<(string, bool)>, text: string, force: bool, n: nat)
    ensures Written(em + [(text, force)], n) ==
            var (texts, free) := Written(em, n);
            if free > 0 then (texts + [text], free - 1) else if force then (texts + [text], 0) else (texts, 0)
  {
    assert (em + [(text, force)])[..|em|] == em;
  }

  lemma {:induction false} RewriteLineStep(d: Doc, o: string, text: string, force: bool, p: string,
                                           em: seq<(string, bool)>, n: nat)
    requires At(d.lines, p, Written(em, n))
    ensures At(RewriteLine(d, o, text, force).lines, p, Written(em + if o == p then [(text, force)] else [], n))
  {
    hide FreeIndexes, Select, Ordered, Written, AppendLine;
    var free := FreeIndexes(d.lines, o);
    WrittenStep(em, text, force, n);
    assert em + [] == em;
    FreeCount(d.lines, o);
    if free != [] {
      if o == p {
        ReuseFirstFree(d.lines, o, text);
      } else {
        var line := Line(text, Some(o), true);
        ReuseElsewhere(d.lines, free[0], line, p, true);
        ReuseElsewhere(d.lines, free[0], line, p, false);
        ReuseElsewhereOrder(d.lines, free[0], line, p);
      }
    } else {
      AppendKeeps(d, o, text, p, true);
      AppendKeeps(d, o, text, p, false);
      AppendKeepsOrder(d, o, text, p);
    }
  }

  lemma ReuseElsewhereOrder(lines: seq<Line>, i: nat, line: Line, o: string)
    requires i < |lines| && lines[i].tag == line.tag != Some(o) && Ordered(lines, o)
    ensures Ordered(lines[i := line], o)
  {
  }

  lemma {:induction false} RunWrites(d: Doc, es: seq<Event>, p: string, n: nat)
    requires At(d.lines, p, ([], n))
    ensures At(Run(d, es).lines, p, Written(EmissionsOf(es, p), n))
  {
    if es != [] {
      hide At, Written;
      var init, e := es[..|es| - 1], es[|es| - 1];
      RunWrites(d, init, p, n);
      if e.Emit? {
        RewriteLineStep(Run(d, init), e.option, e.text, e.force, p, EmissionsOf(init, p), n);
      } else {
        assert EmissionsOf(init, p) + [] == EmissionsOf(init, p);
      }
    } else {
      assert EmissionsOf(es, p) == [];
    }
  }

  lemma {:induction false} NothingUsed(lines: seq<Line>, o: string)
    requires forall i :: 0 <= i < |lines| ==> !lines[i].used
    ensures At(lines, o, ([], |Select(lines, o, false)|))
  {
    if lines != [] {
      NothingUsed(lines[..|lines| - 1], o);
    }
  }

  lemma {:induction false} RunProcesses(d: Doc, es: seq<Event>)
    ensures Run(d, es).processed == d.processed + Processed(es)
  {
    hide Processed, Apply, Run;
    if es == [] {
      NothingRun(d, es);
    } else {
      var init, e := es[..|es| - 1], es[|es| - 1];
      RunProcesses(d, init);
      RunLast(d, es);
      ProcessedLast(es);
      ApplyProcesses(Run(d, init), e);
    }
  }

  lemma {:induction false} NothingRun(d: Doc, es: seq<Event>)
    requires es == []
    ensures Run(d, es) == d && Processed(es) == {}
  {
  }

  lemma {:induction false} RunLast(d: Doc, es: seq<Event>)
    requires es != []
    ensures Run(d, es) == Apply(Run(d, es[..|es| - 1]), es[|es| - 1])
  {
  }

  lemma {:induction false} ProcessedLast(es: seq<Event>)
    requires es != []
    ensures Processed(es) == Processed(es[..|es| - 1]) + {es[|es| - 1].option}
  {
    assert es == es[..|es| - 1] + [es[|es| - 1]];
  }

  lemma {:induction false} ApplyProcesses(d: Doc, e: Event)
    ensures Apply(d, e).processed == d.processed + {e.option}
  {
    hide FreeIndexes, AppendLine;
  }

  lemma {:induction false} OrphanStep(lines: seq<Line>, l: Line, processed: set<string>, signed: bool)
    ensures RemoveOrphaned(Doc(lines + [l], processed, signed)).lines ==
            RemoveOrphaned(Doc(lines, processed, signed)).lines + [Blanked(l, processed)]
  {
    hide Blanked;
  }

  lemma {:induction false} OrphansGone(d: Doc, o: string)
    ensures Select(RemoveOrphaned(d).lines, o, true) == Select(d.lines, o, true)
    ensures Select(RemoveOrphaned(d).lines, o, false) ==
            if o in d.processed then [] else Select(d.lines, o, false)
    decreases |d.lines|
  {
    if d.lines == [] {
      assert RemoveOrphaned(d).lines == [];
    } else {
      var n := |d.lines| - 1;
      var init := d.(lines := d.lines[..n]);
      assert d.lines == init.lines + [d.lines[n]];
      OrphanStep(init.lines, d.lines[n], d.processed, d.signed);
      var kept, last := RemoveOrphaned(init).lines, Blanked(d.lines[n], d.processed);
      hide Select, RemoveOrphaned;
      OrphansGone(init, o);
      SelectLast(kept, last, o, true);
      SelectLast(kept, last, o, false);
      SelectLast(init.lines, d.lines[n], o, true);
      SelectLast(init.lines, d.lines[n], o, false);
    }
  }

  /** Each processed option ends with exactly its written lines in emission order; the others keep theirs. */
  lemma {:induction false} EmittedInOrder(syn: Syntax, content: string, es: seq<Event>, o: string)
    ensures
      var before := ReadFile(syn, content).lines;
      var after := Rewritten(syn, content, es).lines;
      && Select(after, o, true) == Written(EmissionsOf(es, o), |Select(before, o, false)|).0
      && Select(after, o, false) == (if o in Processed(es) then [] else Select(before, o, false))
      && Rewritten(syn, content, es).processed == Processed(es)
  {
    hide Select, FreeIndexes, Written, Ordered, EmissionsOf;
    var d := ReadFile(syn, content);
    NothingUsed(d.lines, o);
    RunWrites(d, es, o, |Select(d.lines, o, false)|);
    RunProcesses(d, es);
    OrphansGone(Run(d, es), o);
    if o !in Processed(es) {
      RunLeaves(d, es, o);
    }
  }

  lemma {:induction false} RunLeaves(d: Doc, es: seq<Event>, o: string)
    requires o !in Processed(es)
    ensures Select(Run(d, es).lines, o, false) == Select(d.lines, o, false)
  {
    if es != [] {
      hide Select;
      var init, e := es[..|es| - 1], es[|es| - 1];
      assert forall x :: x in init ==> x in es;
      RunLeaves(d, init, o);
      assert e in es && e.option != o;
      if e.Emit? {
        LineLeaves(Run(d, init), e.option, e.text, e.force, o);
      }
    }
  }

  lemma {:induction false} LineLeaves(d: Doc, o: string, text: string, force: bool, p: string)
    requires o != p
    ensures Select(RewriteLine(d, o, text, force).lines, p, false) == Select(d.lines, p, false)
  {
    hide Select;
    var free := FreeIndexes(d.lines, o);
    if free != [] {
      ReuseElsewhere(d.lines, free[0], Line(text, Some(o), true), p, false);
    } else {
      AppendKeeps(d, o, text, p, false);
    }
  }

  // ------------------------------------------------------------------ what stays where it was

  /** A line of the old file is untouched, or it belongs to a processed option and was reused for it. */
  ghost predicate KeptOrReused(before: Line, after: Line, processed: set<string>) {
    after == before || (after.used && after.tag == before.tag && after.tag.Some? && after.tag.value in processed)
  }

  ghost predicate Placed(before: Doc, after: Doc, processed: set<string>) {
    && |before.lines| <= |after.lines|
    && (forall i :: 0 <= i < |before.lines| ==> KeptOrReused(before.lines[i], after.lines[i], processed))
    && (forall i :: |before.lines| <= i < |after.lines| ==>
      (after.lines[i].text == SIGNATURE <==> (i == |before.lines| && !before.signed)))
    && (forall i :: |before.lines| <= i < |after.lines| && after.lines[i].tag.Some? ==> after.lines[i].used)
    && after.signed == (before.signed || |before.lines| < |after.lines|)
  }

  ghost predicate NoSignature(es: seq<Event>) {
    forall e :: e in es && e.Emit? ==> e.text != SIGNATURE
  }

  lemma RewriteLinePlaces(before: Doc, d: Doc, o: string, text: string, force: bool, processed: set<string>)
    requires Placed(before, d, processed) && text != SIGNATURE
    ensures Placed(before, RewriteLine(d, o, text, force), processed + {o})
  {
    hide FreeIndexes;
    var free := FreeIndexes(d.lines, o);
    if free != [] {
      assert d.lines[free[0]].tag == Some(o);
    }
  }

  lemma {:induction false} RunPlaces(d: Doc, es: seq<Event>)
    requires NoSignature(es)
    ensures Placed(d, Run(d, es), Processed(es))
  {
    if es != [] {
      var init, e := es[..|es| - 1], es[|es| - 1];
      assert es == init + [e];
      RunPlaces(d, init);
      assert Processed(es) == Processed(init) + {e.option};
      hide Processed;
      if e.Emit? {
        hide Placed;
        RewriteLinePlaces(d, Run(d, init), e.option, e.text, e.force, Processed(init));
      }
    }
  }

  /**
   * Comments, blank lines and lines of unprocessed options stay where they are; every other old line is reused for its
   * own option or blanked; what is appended carries the signature once, first, and only if the file had none.
   */
  lemma KeepsTheRest(syn: Syntax, content: string, es: seq<Event>)
    requires NoSignature(es)
    ensures
      var before := ReadFile(syn, content);
      var after := Rewritten(syn, content, es).lines;
      var n := |before.lines|;
      && n <= |after|
      && (forall i :: 0 <= i < n && (before.lines[i].tag.None? || before.lines[i].tag.value !in Processed(es)) ==>
        after[i] == before.lines[i])
      && (forall i :: 0 <= i < n && before.lines[i].tag.Some? && before.lines[i].tag.value in Processed(es) ==>
        (after[i].used && (after[i].tag == before.lines[i].tag || after[i].text == [])))
      && (forall i :: n <= i < |after| ==>
        (after[i].text == "# Generated by CONFIG REWRITE" <==>
          (i == n && "# Generated by CONFIG REWRITE" !in Texts(before.lines))))
  {
    var d := ReadFile(syn, content);
    RunPlaces(d, es);
    RunProcesses(d, es);
    hide Run, Processed;
  }

  // ------------------------------------------------------------------ the new file, line by line

  /** The places that lines find in a shorter list: in order, none skipped, and shared by empty lines only. */
  ghost predicate Places(lines: seq<string>, pieces: seq<string>, places: seq<nat>) {
    && |places| == |lines|
    && (forall i :: 0 <= i < |lines| ==> places[i] < |pieces| && pieces[places[i]] == lines[i])
    && (forall i, j :: 0 <= i < j < |lines| ==> places[i] <= places[j])
    && (forall i, j :: 0 <= i < j < |lines| && places[i] == places[j] ==> lines[i] == [])
    && (forall p :: 0 <= p < |pieces| ==> p in places)
  }

  lemma {:induction false} CollapseStep(lines: seq<string>)
    requires lines != []
    ensures var n := |lines| - 1;
      var dropped := lines[n] == [] && n > 0 && lines[n - 1] == [];
      Collapse(lines) == Collapse(lines[..n]) + if dropped then [] else [lines[n]]
  {
  }

  lemma {:induction false} CollapseLast(lines: seq<string>)
    requires lines != []
    ensures Collapse(lines) != [] && Collapse(lines)[|Collapse(lines)| - 1] == lines[|lines| - 1]
  {
    hide Collapse;
    CollapseStep(lines);
    var n := |lines| - 1;
    if lines[n] == [] && n > 0 && lines[n - 1] == [] {
      CollapseLast(lines[..n]);
    }
  }

  lemma {:induction false} PlacesGrow(init: seq<string>, pieces: seq<string>, places: seq<nat>, last: string)
    requires Places(init, pieces, places)
    ensures Places(init + [last], pieces + [last], places + [|pieces|])
  {
    var all, more := init + [last], places + [|pieces|];
    forall i | 0 <= i < |all| ensures more[i] < |pieces + [last]| && (pieces + [last])[more[i]] == all[i] {
    }
    forall p | 0 <= p < |pieces + [last]| ensures p in more {
      if p < |pieces| {
        assert p in places;
      } else {
        assert more[|places|] == p;
      }
    }
  }

  lemma {:induction false} PlacesRepeat(init: seq<string>, pieces: seq<string>, places: seq<nat>)
    requires Places(init, pieces, places) && pieces != [] && pieces[|pieces| - 1] == []
    ensures Places(init + [[]], pieces, places + [|pieces| - 1])
  {
    var more := places + [|pieces| - 1];
    forall p | 0 <= p < |pieces| ensures p in more {
      assert p in places;
    }
  }

  /** Collapsing keeps one of every run of empty lines, and every other line, in order; no two empty ones are left together. */
  lemma {:induction false} CollapsePlaces(lines: seq<string>) returns (places: seq<nat>)
    ensures Places(lines, Collapse(lines), places)
    ensures forall j :: 0 < j < |Collapse(lines)| ==> Collapse(lines)[j] != [] || Collapse(lines)[j - 1] != []
  {
    hide Collapse, Places;
    if lines == [] {
      NoPlaces(lines);
      places := [];
    } else {
      var n := |lines| - 1;
      var init, last := lines[..n], lines[n];
      assert lines == init + [last];
      places := CollapsePlaces(init);
      CollapseStep(lines);
      if n > 0 {
        CollapseLast(init);
      } else {
        NoPlaces(init);
      }
      if last == [] && n > 0 && lines[n - 1] == [] {
        PlacesRepeat(init, Collapse(init), places);
        assert lines == init + [[]] && Collapse(lines) == Collapse(init);
        places := places + [|Collapse(init)| - 1];
      } else {
        PlacesGrow(init, Collapse(init), places, last);
        places := places + [|Collapse(init)|];
      }
    }
  }

  lemma {:induction false} NoPlaces(lines: seq<string>)
    requires lines == []
    ensures Collapse(lines) == [] && Places(lines, Collapse(lines), [])
  {
  }

  function RawLines(content: string): (raws: seq<string>) {
    if content == [] then [] else Split(content)
  }

  /** What stands in the new file for a line of the old one, unless the line's option was rewritten. */
  ghost predicate StandsFor(syn: Syntax, raw: string, processed: set<string>, now: string) {
    exists t :: Stripped(raw, t) && StandsForText(syn, t, processed, now)
  }

  ghost predicate StandsForText(syn: Syntax, t: string, processed: set<string>, now: string) {
    if t == [] || t[0] == '#' then now == t
    else match syn(t)
      case None => now == "# ??? " + t
      case Some(o) => o in processed || now == t
  }

  /** The new file is made of these pieces, and the lines of the old one find these places among them. */
  ghost predicate KeepsFile(
    syn: Syntax, content: string, processed: set<string>, now: string, pieces: seq<string>, places: seq<nat>)
  {
    var raws := RawLines(content);
    && now == Join(pieces) && |places| == |raws|
    && (forall i :: 0 <= i < |raws| ==> places[i] < |pieces| && StandsFor(syn, raws[i], processed, pieces[places[i]]))
    && (forall i, j :: 0 <= i < j < |raws| ==> places[i] <= places[j])
    && (forall i, j :: 0 <= i < j < |raws| && places[i] == places[j] ==> pieces[places[i]] == [])
    && (forall j :: 0 < j < |pieces| ==> pieces[j] != [] || pieces[j - 1] != [])
  }

  /**
   * Every comment, every blank line and every line of an option that was not rewritten stands in the new file without
   * its outer blanks, an unparsable one behind a mark, in the old order; blank lines that come together share a place.
   */
  lemma {:induction false} FileKeeps(syn: Syntax, content: string, es: seq<Event>)
    returns (pieces: seq<string>, places: seq<nat>)
    requires NoSignature(es)
    ensures KeepsFile(syn, content, Processed(es), Rewrite(syn, content, es), pieces, places)
  {
    hide Rewritten, Collapse, Processed, StandsFor, Split, Join, Places;
    var d, after := ReadFile(syn, content), Rewritten(syn, content, es);
    var texts, raws := Texts(after.lines), RawLines(content);
    KeepsTheRest(syn, content, es);
    ReadsRawLines(syn, content);
    pieces := Collapse(texts);
    var all := CollapsePlaces(texts);
    PlacesMean(texts, pieces, all);
    places := all[..|raws|];
    forall i | 0 <= i < |raws| ensures StandsFor(syn, raws[i], Processed(es), pieces[places[i]]) {
      ReadLineStandsFor(syn, raws[i], Processed(es), after.lines[i].text);
    }
  }

  lemma {:induction false} PlacesMean(lines: seq<string>, pieces: seq<string>, places: seq<nat>)
    requires Places(lines, pieces, places)
    ensures |places| == |lines|
    ensures forall i :: 0 <= i < |lines| ==> places[i] < |pieces| && pieces[places[i]] == lines[i]
    ensures forall i, j :: 0 <= i < j < |lines| ==> places[i] <= places[j]
    ensures forall i, j :: 0 <= i < j < |lines| && places[i] == places[j] ==> lines[i] == []
  {
  }

  lemma {:induction false} ReadsRawLines(syn: Syntax, content: string)
    ensures var d := ReadFile(syn, content);
      |d.lines| == |RawLines(content)| && forall i :: 0 <= i < |d.lines| ==> d.lines[i] == ReadLine(syn, RawLines(content)[i])
  {
    hide ReadLine, Split;
  }

  /** A kept line's text, or any text when its option was rewritten, stands for the raw line. */
  lemma {:induction false} ReadLineStandsFor(syn: Syntax, raw: string, processed: set<string>, now: string)
    requires var l := ReadLine(syn, raw);
      (l.tag.None? || l.tag.value !in processed) ==> now == l.text
    ensures StandsFor(syn, raw, processed, now)
  {
    hide Trim, Stripped;
    TrimStrips(raw);
    var t := Trim(raw);
    assert StandsForText(syn, t, processed, now);
  }

  lemma {:induction false} SelectedIsThere(lines: seq<Line>, o: string, used: bool, text: string)
    requires text in Select(lines, o, used)
    ensures exists i :: 0 <= i < |lines| && lines[i] == Line(text, Some(o), used)
  {
    if lines != [] {
      var n := |lines| - 1;
      if text in Select(lines[..n], o, used) {
        SelectedIsThere(lines[..n], o, used, text);
        var i :| 0 <= i < |lines[..n]| && lines[..n][i] == Line(text, Some(o), used);
        assert lines[i] == Line(text, Some(o), used);
      }
    }
  }

  /** What is written for an option stands in the new file. */
  lemma {:induction false} FileWrites(syn: Syntax, content: string, es: seq<Event>, o: string, text: string)
    requires text in Written(EmissionsOf(es, o), |Select(ReadFile(syn, content).lines, o, false)|).0
    ensures exists pieces :: Rewrite(syn, content, es) == Join(pieces) && text in pieces
  {
    hide Rewritten, Select, Written, EmissionsOf, Collapse, Places, Join;
    EmittedInOrder(syn, content, es, o);
    var after := Rewritten(syn, content, es).lines;
    SelectedIsThere(after, o, true, text);
    var i :| 0 <= i < |after| && after[i] == Line(text, Some(o), true);
    var places := CollapsePlaces(Texts(after));
    PlacesMean(Texts(after), Collapse(Texts(after)), places);
    assert Collapse(Texts(after))[places[i]] == text;
  }
}
