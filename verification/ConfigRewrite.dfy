/**
 * The in-place file editor behind CONFIG REWRITE: an array of lines and, for each option, the list of its unused lines.
 */
module ConfigRewrite {
  import opened Base
  import opened RewriteSpec
  import opened RewriteLaws
  import RewriteTwice

  datatype File = Unreadable | Missing | Contents(text: string)

  function TextOf(f: File): string {
    if f.Contents? then f.text else []
  }

  // ------------------------------------------------------------------ the unused lines of an option

  function FreeFrom(lines: seq<Line>, o: string, base: nat): (r: seq<nat>) {
    if lines == [] then []
    else
      var n := |lines| - 1;
      FreeFrom(lines[..n], o, base) + if lines[n].tag == Some(o) && !lines[n].used then [base + n] else []
  }

  lemma {:induction false} FreeAppend(lines: seq<Line>, x: Line, o: string)
    ensures FreeIndexes(lines + [x], o) == FreeIndexes(lines, o) + if x.tag == Some(o) && !x.used then [|lines|] else []
  {
    assert (lines + [x])[..|lines|] == lines;
  }

  lemma {:induction false} FreeFromAppend(lines: seq<Line>, x: Line, o: string, base: nat)
    ensures FreeFrom(lines + [x], o, base) ==
            FreeFrom(lines, o, base) + if x.tag == Some(o) && !x.used then [base + |lines|] else []
  {
    assert (lines + [x])[..|lines|] == lines;
  }

  lemma {:induction false} NoneFreeFrom(o: string, base: nat)
    ensures FreeFrom([], o, base) == []
  {
  }

  lemma {:induction false} FreeThree(a: seq<Line>, x: Line, b: seq<Line>, o: string)
    ensures FreeIndexes(a + [x] + b, o) ==
            FreeIndexes(a, o) + (if x.tag == Some(o) && !x.used then [|a|] else []) + FreeFrom(b, o, |a| + 1)
  {
    hide FreeIndexes, FreeFrom;
    if b == [] {
      NoneFreeFrom(o, |a| + 1);
      assert a + [x] + b == a + [x];
      FreeAppend(a, x, o);
    } else {
      var init, last := b[..|b| - 1], b[|b| - 1];
      FreeThree(a, x, init, o);
      assert b == init + [last] && a + [x] + b == a + [x] + init + [last];
      FreeAppend(a + [x] + init, last, o);
      FreeFromAppend(init, last, o, |a| + 1);
    }
  }

  lemma {:induction false} FreeMembers(lines: seq<Line>, o: string)
    ensures forall i :: i in FreeIndexes(lines, o) <==> 0 <= i < |lines| && lines[i].tag == Some(o) && !lines[i].used
  {
    if lines != [] {
      FreeMembers(lines[..|lines| - 1], o);
    }
  }

  /** No line before the first free one is free. */
  lemma {:induction false} FirstFree(lines: seq<Line>, o: string)
    requires FreeIndexes(lines, o) != []
    ensures FreeIndexes(lines[..FreeIndexes(lines, o)[0]], o) == []
  {
    hide FreeIndexes, Select;
    var i := FreeIndexes(lines, o)[0];
    NothingFreeBefore(lines, o);
    SelectNone(lines[..i], o, false);
    FreeCount(lines[..i], o);
  }

  lemma {:induction false} FirstFreeTaken(lines: seq<Line>, o: string, text: string)
    requires FreeIndexes(lines, o) != []
    ensures FreeIndexes(lines[FreeIndexes(lines, o)[0] := Line(text, Some(o), true)], o) == FreeIndexes(lines, o)[1..]
  {
    hide FreeIndexes;
    var i, line := FreeIndexes(lines, o)[0], Line(text, Some(o), true);
    FirstFree(lines, o);
    Around(lines, i, line);
    FreeThree(lines[..i], lines[i], lines[i + 1..], o);
    FreeThree(lines[..i], line, lines[i + 1..], o);
  }

  lemma OtherFreeKept(lines: seq<Line>, i: nat, line: Line, o: string)
    requires i < |lines| && lines[i].tag == line.tag != Some(o)
    ensures FreeIndexes(lines[i := line], o) == FreeIndexes(lines, o)
  {
    hide FreeIndexes;
    Around(lines, i, line);
    FreeThree(lines[..i], lines[i], lines[i + 1..], o);
    FreeThree(lines[..i], line, lines[i + 1..], o);
  }

  lemma TextsAppend(lines: seq<Line>, x: Line)
    ensures Texts(lines + [x]) == Texts(lines) + [x.text]
    ensures HasSignature(lines + [x]) == (HasSignature(lines) || x.text == SIGNATURE)
  {
    assert Texts(lines + [x]) == Texts(lines) + [x.text];
  }

  class RewriteState {
    var lines: seq<string>
    var optionToLine: map<string, seq<nat>>
    var rewritten: set<string>
    var needsSignature: bool
    var forceWrite: bool
    ghost var doc: Doc

    constructor ()
      ensures Valid() && doc == Doc([], {}, false) && !forceWrite
    {
      lines, optionToLine, rewritten, needsSignature, forceWrite := [], map[], {}, true, false;
      doc := Doc([], {}, false);
    }

    method SetForceWrite()
      requires Valid()
      modifies `forceWrite
      ensures Valid() && forceWrite
    {
      forceWrite := true;
      assert forall o :: old(Listed(o)) ==> Listed(o);
    }

    ghost predicate Listed(o: string)
      reads this
    {
      && (o in optionToLine ==> optionToLine[o] != [] && optionToLine[o] == FreeIndexes(doc.lines, o))
      && (o !in optionToLine ==> FreeIndexes(doc.lines, o) == [])
    }

    ghost predicate Valid()
      reads this
    {
      && lines == Texts(doc.lines)
      && rewritten == doc.processed
      && needsSignature == !doc.signed
      && (forall o :: Listed(o))
    }

    /** Adds a line read from the old file; an option's line is also put at the end of the option's list. */
    method AddLine(line: Line)
      requires Valid() && !line.used
      modifies this
      ensures Valid() && forceWrite == old(forceWrite)
      ensures doc == old(doc).(lines := old(doc).lines + [line])
    {
      lines := lines + [line.text];
      if line.tag.Some? {
        var o := line.tag.value;
        optionToLine := optionToLine[o := (if o in optionToLine then optionToLine[o] else []) + [|lines| - 1]];
      }
      doc := doc.(lines := doc.lines + [line]);
      TextsAppend(old(doc).lines, line);
      forall o
        ensures Listed(o)
      {
        assert old(Listed(o));
        FreeAppend(old(doc).lines, line, o);
      }
    }

    method ReadRaw(syn: Syntax, raw: string)
      requires Valid()
      modifies this
      ensures Valid() && forceWrite == old(forceWrite)
      ensures var line := ReadLine(syn, raw);
        doc == Doc(old(doc).lines + [line], old(doc).processed, old(doc).signed || line.text == SIGNATURE)
    {
      var line := Trim(raw);
      assert SIGNATURE[0] == '#' && SIGNATURE[2] == 'G' && (UNKNOWN_PREFIX + line)[2] == '?';
      hide FreeIndexes, Listed, Texts, Trim;
      if Comment(line) {
        if needsSignature && line == SIGNATURE {
          NoteSignature();
        }
        AddLine(Line(line, None, false));
      } else if syn(line).None? {
        AddLine(Line(UNKNOWN_PREFIX + line, None, false));
      } else {
        AddLine(Line(line, syn(line), false));
      }
    }

    method AppendText(ghost line: Line, text: string)
      requires Valid() && line.text == text && (line.tag.None? || line.used)
      modifies this
      ensures Valid() && forceWrite == old(forceWrite)
      ensures doc == old(doc).(lines := old(doc).lines + [line])
    {
      lines := lines + [text];
      doc := doc.(lines := doc.lines + [line]);
      TextsAppend(old(doc).lines, line);
      forall o
        ensures Listed(o)
      {
        assert old(Listed(o));
        FreeAppend(old(doc).lines, line, o);
      }
    }

    method MarkAsProcessed(option: string)
      requires Valid()
      modifies `rewritten, `doc
      ensures Valid()
      ensures doc == Apply(old(doc), Mark(option))
    {
      rewritten := rewritten + {option};
      doc := doc.(processed := doc.processed + {option});
      assert forall o :: old(Listed(o)) ==> Listed(o);
    }

    method NoteSignature()
      requires Valid()
      modifies `needsSignature, `doc
      ensures Valid() && doc == old(doc).(signed := true)
    {
      needsSignature := false;
      doc := doc.(signed := true);
      assert forall o :: old(Listed(o)) ==> Listed(o);
    }

    /** Takes the option's first unused line and writes over it. */
    method ReuseLine(option: string, line: string)
      requires Valid() && option in optionToLine
      modifies this
      ensures Valid() && forceWrite == old(forceWrite)
      ensures FreeIndexes(old(doc).lines, option) != []
      ensures var first := FreeIndexes(old(doc).lines, option)[0];
        doc == old(doc).(lines := old(doc).lines[first := Line(line, Some(option), true)])
    {
      hide FreeIndexes;
      assert Listed(option);
      var l := optionToLine[option];
      var linenum := l[0];
      optionToLine := if |l| == 1 then optionToLine - {option} else optionToLine[option := l[1..]];
      lines := lines[linenum := line];
      doc := doc.(lines := doc.lines[linenum := Line(line, Some(option), true)]);
      assert Texts(doc.lines) == Texts(old(doc).lines)[linenum := line];
      FirstFreeTaken(old(doc).lines, option, line);
      forall o
        ensures Listed(o)
      {
        assert old(Listed(o));
        if o != option {
          OtherFreeKept(old(doc).lines, linenum, Line(line, Some(option), true), o);
        }
      }
    }

    method RewriteLine(option: string, line: string, force: bool) returns (written: bool)
      requires Valid()
      modifies this
      ensures Valid() && forceWrite == old(forceWrite)
      ensures doc == Apply(old(doc), Emit(option, line, force || forceWrite))
      ensures written == (force || forceWrite || FreeIndexes(old(doc).lines, option) != [])
    {
      hide FreeIndexes;
      assert Listed(option);
      var found := option in optionToLine;
      MarkAsProcessed(option);
      if !found && !force && !forceWrite {
        return false;
      }
      if found {
        ReuseLine(option, line);
      } else {
        if needsSignature {
          AppendText(Line(SIGNATURE, None, false), SIGNATURE);
          NoteSignature();
        }
        AppendText(Line(line, Some(option), true), line);
      }
      return true;
    }

    /** Lets every option emit its lines, in turn. */
    method RewriteOptions(es: seq<Event>)
      requires Valid()
      modifies this
      ensures Valid() && doc == Run(old(doc), Forced(es, forceWrite)) && forceWrite == old(forceWrite)
    {
      hide FreeIndexes, RewriteSpec.RewriteLine, Listed, Texts;
      ghost var all := Forced(es, forceWrite);
      var k := 0;
      while k < |es|
        invariant 0 <= k <= |es|
        invariant Valid() && forceWrite == old(forceWrite)
        invariant doc == Run(old(doc), all[..k])
      {
        assert all[..k + 1][..k] == all[..k];
        match es[k] {
          case Emit(option, line, force) =>
            var written := RewriteLine(option, line, force);
          case Mark(option) =>
            MarkAsProcessed(option);
        }
        k := k + 1;
      }
      assert all[..k] == all;
    }

    /** Blanks the lines still listed for options the rewrite processed, option by option, line by line. */
    method RemoveOrphaned()
      requires Valid()
      modifies `lines, `optionToLine
      ensures lines == Texts(RewriteSpec.RemoveOrphaned(doc).lines)
    {
      hide FreeIndexes;
      var options := optionToLine.Keys;
      ghost var handled: set<string> := {};
      forall o
        ensures o in optionToLine ==> optionToLine[o] == FreeIndexes(doc.lines, o)
        ensures o !in optionToLine ==> FreeIndexes(doc.lines, o) == []
      {
        assert Listed(o);
      }
      while options != {}
        invariant options !! handled && options <= optionToLine.Keys
        invariant forall o :: o in options ==> optionToLine[o] == FreeIndexes(doc.lines, o)
        invariant forall o :: o !in options && o !in handled ==> FreeIndexes(doc.lines, o) == []
        invariant BlankedFor(lines, doc, handled)
        decreases |options|
      {
        var o :| o in options;
        options := options - {o};
        if o in rewritten {
          BlankList(o, handled);
        } else {
          SkipUnprocessed(lines, doc, handled, o);
        }
        handled := handled + {o};
      }
      AllHandled(lines, doc, handled);
    }

    method BlankList(o: string, ghost handled: set<string>)
      requires o in optionToLine && o !in handled && optionToLine[o] == FreeIndexes(doc.lines, o)
      requires o in doc.processed && BlankedFor(lines, doc, handled)
      modifies `lines, `optionToLine
      ensures optionToLine == old(optionToLine)[o := []] && BlankedFor(lines, doc, handled + {o})
    {
      hide FreeIndexes, Cleared, BlankedFor;
      ghost var all := FreeIndexes(doc.lines, o);
      ghost var done: seq<nat> := [];
      NoneCleared(lines, doc, handled);
      while optionToLine[o] != []
        invariant o in optionToLine && optionToLine == old(optionToLine)[o := optionToLine[o]]
        invariant all == done + optionToLine[o]
        invariant |lines| == |doc.lines|
        invariant Cleared(lines, doc, handled, done)
        decreases |optionToLine[o]|
      {
        var l := optionToLine[o];
        var linenum := l[0];
        assert l == [linenum] + l[1..] && linenum == all[|done|];
        ClearOne(lines, doc, handled, done, linenum);
        lines := lines[linenum := []];
        optionToLine := optionToLine[o := l[1..]];
        done := done + [linenum];
      }
      assert all == done;
      ClearedAll(lines, doc, handled, o);
    }
  }

  /** Line i is unused and belongs to a processed option among the given ones. */
  ghost predicate Orphan(d: Doc, handled: set<string>, i: nat)
    requires i < |d.lines|
  {
    var l := d.lines[i];
    l.tag.Some? && !l.used && l.tag.value in handled && l.tag.value in d.processed
  }

  ghost predicate BlankedFor(lines: seq<string>, d: Doc, handled: set<string>) {
    && |lines| == |d.lines|
    && forall i :: 0 <= i < |lines| ==> lines[i] == if Orphan(d, handled, i) then [] else d.lines[i].text
  }

  /** As BlankedFor, with some lines of the option at hand blank as well. */
  ghost predicate Cleared(lines: seq<string>, d: Doc, handled: set<string>, done: seq<nat>) {
    && |lines| == |d.lines|
    && forall i: nat :: i < |lines| ==> lines[i] == if Orphan(d, handled, i) || i in done then [] else d.lines[i].text
  }

  lemma NoneCleared(lines: seq<string>, d: Doc, handled: set<string>)
    requires BlankedFor(lines, d, handled)
    ensures Cleared(lines, d, handled, []) && |lines| == |d.lines|
  {
    hide Orphan;
  }

  lemma ClearOne(lines: seq<string>, d: Doc, handled: set<string>, done: seq<nat>, k: nat)
    requires Cleared(lines, d, handled, done) && k < |lines|
    ensures Cleared(lines[k := []], d, handled, done + [k])
  {
    hide Orphan;
  }

  lemma {:induction false} ClearedAll(lines: seq<string>, d: Doc, handled: set<string>, o: string)
    requires Cleared(lines, d, handled, FreeIndexes(d.lines, o)) && o in d.processed
    ensures BlankedFor(lines, d, handled + {o})
  {
    hide FreeIndexes;
    FreeMembers(d.lines, o);
  }

  lemma SkipUnprocessed(lines: seq<string>, d: Doc, handled: set<string>, o: string)
    requires BlankedFor(lines, d, handled) && o !in d.processed
    ensures BlankedFor(lines, d, handled + {o})
  {
  }

  lemma AllHandled(lines: seq<string>, d: Doc, handled: set<string>)
    requires BlankedFor(lines, d, handled)
    requires forall o :: o !in handled ==> FreeIndexes(d.lines, o) == []
    ensures lines == Texts(RewriteSpec.RemoveOrphaned(d).lines)
  {
    forall i | 0 <= i < |lines|
      ensures lines[i] == Blanked(d.lines[i], d.processed).text
    {
      var l := d.lines[i];
      if l.tag.Some? && l.tag.value !in handled {
        NothingFree(d.lines, l.tag.value);
      }
    }
  }

  method ReadOldFile(syn: Syntax, f: File) returns (state: RewriteState?)
    ensures state == null <==> f.Unreadable?
    ensures state != null ==> fresh(state) && state.Valid() && state.doc == ReadFile(syn, TextOf(f)) && !state.forceWrite
  {
    if f.Unreadable? {
      return null;
    }
    var s := new RewriteState();
    if f.Missing? || f.text == [] {
      return s;
    }
    var raws := Split(f.text);
    hide FreeIndexes, ReadLine, HasSignature, RewriteState.Valid;
    var i := 0;
    while i < |raws|
      invariant 0 <= i <= |raws|
      invariant fresh(s) && s.Valid() && !s.forceWrite
      invariant s.doc == Doc(ReadLines(syn, raws[..i]), {}, HasSignature(ReadLines(syn, raws[..i])))
    {
      ghost var before := s.doc.lines;
      s.ReadRaw(syn, raws[i]);
      assert raws[..i + 1] == raws[..i] + [raws[i]];
      assert ReadLines(syn, raws[..i + 1]) == before + [ReadLine(syn, raws[i])];
      TextsAppend(before, ReadLine(syn, raws[i]));
      i := i + 1;
    }
    assert raws[..i] == raws;
    return s;
  }

  /** Joins the lines, dropping an empty line that follows an empty one. */
  method GetContentFromState(lines: seq<string>) returns (content: string)
    ensures content == Join(Collapse(lines))
  {
    content := [];
    var wasEmpty := false;
    var j := 0;
    while j < |lines|
      invariant 0 <= j <= |lines|
      invariant wasEmpty == (j > 0 && lines[j - 1] == [])
      invariant content == Join(Collapse(lines[..j]))
    {
      assert lines[..j + 1][..j] == lines[..j];
      ghost var kept := Collapse(lines[..j]);
      if lines[j] == [] && wasEmpty {
        assert Collapse(lines[..j + 1]) == kept + [] == kept;
      } else {
        wasEmpty := lines[j] == [];
        assert Collapse(lines[..j + 1]) == kept + [lines[j]];
        assert (kept + [lines[j]])[..|kept|] == kept;
        content := content + lines[j];
        content := content + ['\n'];
      }
      j := j + 1;
    }
    assert lines[..j] == lines;
  }

  function ForceAll(e: Event): Event {
    if e.Emit? then e.(force := true) else e
  }

  function Forced(es: seq<Event>, forceWrite: bool): (r: seq<Event>)
    ensures |r| == |es|
  {
    if forceWrite then seq(|es|, i requires 0 <= i < |es| => ForceAll(es[i])) else es
  }

  lemma {:induction false} ForcedIsSame(es: seq<Event>, forceWrite: bool)
    ensures Processed(Forced(es, forceWrite)) == Processed(es)
    ensures NoSignature(es) ==> NoSignature(Forced(es, forceWrite))
  {
    var fs := Forced(es, forceWrite);
    assert forall i :: 0 <= i < |es| ==> fs[i].option == es[i].option && fs[i] in fs && es[i] in es;
    forall o | o in Processed(es) ensures o in Processed(fs) {
      var i :| 0 <= i < |es| && es[i].option == o;
      assert fs[i].option == o;
    }
  }

  lemma {:induction false} ForcedEmissions(es: seq<Event>, o: string)
    ensures var em, fm := EmissionsOf(es, o), EmissionsOf(Forced(es, true), o);
      |fm| == |em| && forall i :: 0 <= i < |em| ==> fm[i] == (em[i].0, true)
  {
    var fs := Forced(es, true);
    if es != [] {
      var init := es[..|es| - 1];
      assert fs[..|fs| - 1] == Forced(init, true);
      ForcedEmissions(init, o);
    }
  }

  lemma {:induction false} AllWrittenWhenForced(em: seq<(string, bool)>, n: nat)
    requires forall i :: 0 <= i < |em| ==> em[i].1
    ensures Written(em, n).0 == RewriteTwice.AllTexts(em)
  {
    if em != [] {
      var init, last := em[..|em| - 1], em[|em| - 1];
      AllWrittenWhenForced(init, n);
      assert RewriteTwice.AllTexts(em) == RewriteTwice.AllTexts(init) + [last.0];
    }
  }

  /** When every change is to be written, every line emitted for an option is in the new file, in the order emitted. */
  lemma {:induction false} ForceWritesAll(syn: Syntax, content: string, es: seq<Event>, o: string)
    ensures Select(Rewritten(syn, content, Forced(es, true)).lines, o, true) == RewriteTwice.AllTexts(EmissionsOf(es, o))
  {
    hide Rewritten, Select, Written, EmissionsOf, Forced;
    ForcedEmissions(es, o);
    EmittedInOrder(syn, content, Forced(es, true), o);
    AllWrittenWhenForced(EmissionsOf(Forced(es, true), o), |Select(ReadFile(syn, content).lines, o, false)|);
    assert RewriteTwice.AllTexts(EmissionsOf(Forced(es, true), o)) == RewriteTwice.AllTexts(EmissionsOf(es, o));
  }

  /** The whole rewrite: the new content of the file, or nothing when the old one cannot be read. */
  method RewriteConfig(syn: Syntax, f: File, es: seq<Event>, forceWrite: bool) returns (content: Option<string>)
    ensures content == if f.Unreadable? then None else Some(Rewrite(syn, TextOf(f), Forced(es, forceWrite)))
    ensures content.Some? && NoSignature(es) ==>
      exists pieces, places :: KeepsFile(syn, TextOf(f), Processed(es), content.value, pieces, places)
  {
    hide KeepsFile, NoSignature, Processed, RewriteState.Valid;
    var state := ReadOldFile(syn, f);
    if state == null {
      return None;
    }
    if forceWrite {
      state.SetForceWrite();
    }
    state.RewriteOptions(es);
    state.RemoveOrphaned();
    var text := GetContentFromState(state.lines);
    content := Some(text);
    if NoSignature(es) {
      ForcedIsSame(es, forceWrite);
      ghost var pieces, places := FileKeeps(syn, TextOf(f), Forced(es, forceWrite));
    }
  }
}
