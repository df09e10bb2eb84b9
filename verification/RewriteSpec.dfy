/**
 * CONFIG REWRITE (config.c) as a transformation of lines. Each line of the old file belongs to an option or to none;
 * the rewrite reuses an option's lines in order, appends what does not fit, and blanks what is left over.
 */
module RewriteSpec {
  import opened Base

  const SIGNATURE: string := "# Generated by CONFIG REWRITE"
  const UNKNOWN_PREFIX: string := "# ??? "

  // ------------------------------------------------------------------ text

  predicate IsBlank(c: char) {
    c == '\r' || c == '\n' || c == '\t' || c == ' '
  }

  function Trim(s: string): (r: string)
    ensures |r| <= |s|
    decreases |s|
  {
    if s == [] then s
    else if IsBlank(s[0]) then Trim(s[1..])
    else if IsBlank(s[|s| - 1]) then Trim(s[..|s| - 1])
    else s
  }

  lemma {:induction false} TrimTrimmed(s: string)
    ensures Trim(s) != [] ==> !IsBlank(Trim(s)[0]) && !IsBlank(Trim(s)[|Trim(s)| - 1])
    ensures forall c :: c in Trim(s) ==> c in s
    decreases |s|
  {
    if s != [] {
      if IsBlank(s[0]) {
        TrimTrimmed(s[1..]);
      } else if IsBlank(s[|s| - 1]) {
        TrimTrimmed(s[..|s| - 1]);
      }
    }
  }

  ghost predicate AllBlank(s: string) {
    forall c :: c in s ==> c in {' ', '\t', '\r', '\n'}
  }

  /** t is s without its outer blanks. */
  ghost predicate Stripped(s: string, t: string) {
    && (exists p, q :: AllBlank(p) && AllBlank(q) && Wrapped(s, p, t, q))
    && (t != [] ==> t[0] !in {' ', '\t', '\r', '\n'} && t[|t| - 1] !in {' ', '\t', '\r', '\n'})
  }

  ghost predicate Wrapped(s: string, p: string, t: string, q: string) {
    s == p + t + q
  }

  lemma {:induction false} TrimSplits(s: string) returns (p: string, q: string)
    ensures AllBlank(p) && AllBlank(q) && Wrapped(s, p, Trim(s), q)
    decreases |s|
  {
    if s == [] {
      p, q := [], [];
    } else if IsBlank(s[0]) {
      p, q := TrimSplits(s[1..]);
      assert s == [s[0]] + s[1..];
      p := [s[0]] + p;
    } else if IsBlank(s[|s| - 1]) {
      p, q := TrimSplits(s[..|s| - 1]);
      assert s == s[..|s| - 1] + [s[|s| - 1]];
      q := q + [s[|s| - 1]];
    } else {
      p, q := [], [];
    }
  }

  /** Trimming strips the outer blanks and nothing else. */
  lemma {:induction false} TrimStrips(s: string)
    ensures Stripped(s, Trim(s))
  {
    hide Trim;
    var p, q := TrimSplits(s);
    TrimTrimmed(s);
  }

  /** The pieces between newlines; there is always at least one. */
  function Split(s: string): (r: seq<string>)
    ensures r != []
  {
    if s == [] then [[]]
    else
      var r := Split(s[..|s| - 1]);
      var c := s[|s| - 1];
      if c == '\n' then r + [[]] else r[|r| - 1 := r[|r| - 1] + [c]]
  }

  function Join(lines: seq<string>): (s: string) {
    if lines == [] then [] else Join(lines[..|lines| - 1]) + lines[|lines| - 1] + ['\n']
  }

  ghost predicate OneLine(s: string) {
    forall c :: c in s ==> c != '\n'
  }

  /** Extending the last piece. */
  function Extended(pieces: seq<string>, t: string): (r: seq<string>)
    requires pieces != []
  {
    pieces[|pieces| - 1 := pieces[|pieces| - 1] + t]
  }

  lemma {:induction false} SplitChar(s: string, c: char)
    ensures Split(s + [c]) == if c == '\n' then Split(s) + [[]] else Extended(Split(s), [c])
  {
    assert (s + [c])[..|s|] == s;
  }

  lemma {:induction false} ExtendedTwice(pieces: seq<string>, t: string, u: string)
    requires pieces != []
    ensures Extended(Extended(pieces, t), u) == Extended(pieces, t + u) && Extended(pieces, []) == pieces
  {
    var last := pieces[|pieces| - 1];
    assert last + t + u == last + (t + u) && last + [] == last;
  }

  lemma {:induction false} SplitAppend(s: string, t: string)
    requires OneLine(t)
    ensures Split(s + t) == Extended(Split(s), t)
  {
    hide Split, Extended;
    if t == [] {
      assert s + t == s;
      ExtendedTwice(Split(s), t, t);
    } else {
      var init, c := t[..|t| - 1], t[|t| - 1];
      assert t == init + [c] && c in t;
      assert forall x :: x in init ==> x in t;
      SplitAppend(s, init);
      SplitChar(s + init, c);
      assert s + t == s + init + [c];
      ExtendedTwice(Split(s), init, [c]);
    }
  }

  lemma SplitLineEnd(s: string, t: string)
    requires OneLine(t)
    ensures Split(s + t + ['\n']) == Extended(Split(s), t) + [[]]
  {
    hide Split;
    SplitAppend(s, t);
    SplitChar(s + t, '\n');
  }

  /** Reading back what was written gives the same lines and an empty one after the last newline. */
  lemma {:induction false} SplitJoin(lines: seq<string>)
    requires forall i :: 0 <= i < |lines| ==> OneLine(lines[i])
    ensures Split(Join(lines)) == lines + [[]]
    ensures Join(lines) == [] <==> lines == []
  {
    if lines != [] {
      hide Split, OneLine;
      var init, last := lines[..|lines| - 1], lines[|lines| - 1];
      SplitJoin(init);
      SplitLineEnd(Join(init), last);
      assert [] + last == last;
      assert (init + [[]])[|init| := last] + [[]] == lines + [[]];
    }
  }

  lemma {:induction false} SplitOneLine(s: string)
    ensures forall i :: 0 <= i < |Split(s)| ==> OneLine(Split(s)[i])
  {
    if s != [] {
      SplitOneLine(s[..|s| - 1]);
    }
  }

  // ------------------------------------------------------------------ lines and options

  /** A line with the option it belongs to; used means written by this rewrite. */
  datatype Line = Line(text: string, tag: Option<string>, used: bool)

  datatype Doc = Doc(lines: seq<Line>, processed: set<string>, signed: bool)

  /** The option a line sets, under its primary name, or None when it cannot be parsed or is not known. */
  type Syntax = string -> Option<string>

  predicate Comment(t: string) {
    t == [] || t[0] == '#'
  }

  function TagOf(syn: Syntax, t: string): Option<string> {
    if Comment(t) then None else syn(t)
  }

  function ReadLine(syn: Syntax, raw: string): Line {
    var t := Trim(raw);
    if Comment(t) then Line(t, None, false)
    else if syn(t).None? then Line(UNKNOWN_PREFIX + t, None, false)
    else Line(t, syn(t), false)
  }

  function ReadLines(syn: Syntax, raws: seq<string>): (r: seq<Line>)
    ensures |r| == |raws|
  {
    seq(|raws|, i requires 0 <= i < |raws| => ReadLine(syn, raws[i]))
  }

  function Texts(lines: seq<Line>): (r: seq<string>)
    ensures |r| == |lines|
  {
    seq(|lines|, i requires 0 <= i < |lines| => lines[i].text)
  }

  predicate HasSignature(lines: seq<Line>) {
    SIGNATURE in Texts(lines)
  }

  function ReadFile(syn: Syntax, content: string): Doc {
    var lines := if content == [] then [] else ReadLines(syn, Split(content));
    Doc(lines, {}, HasSignature(lines))
  }

  /** The lines of an option that the rewrite has not used yet, first to last. */
  function FreeIndexes(lines: seq<Line>, o: string): (r: seq<nat>)
    ensures forall k :: 0 <= k < |r| ==> r[k] < |lines| && lines[r[k]].tag == Some(o) && !lines[r[k]].used
  {
    if lines == [] then []
    else
      var n := |lines| - 1;
      FreeIndexes(lines[..n], o) + if lines[n].tag == Some(o) && !lines[n].used then [n] else []
  }

  /** The texts of an option's used, or unused, lines in file order. */
  function Select(lines: seq<Line>, o: string, used: bool): (r: seq<string>) {
    if lines == [] then []
    else
      var n := |lines| - 1;
      Select(lines[..n], o, used) + if lines[n].tag == Some(o) && lines[n].used == used then [lines[n].text] else []
  }

  function AppendLine(d: Doc, o: string, text: string): (r: Doc) {
    var signature := if d.signed then [] else [Line(SIGNATURE, None, false)];
    Doc(d.lines + signature + [Line(text, Some(o), true)], d.processed, true)
  }

  function RewriteLine(d: Doc, o: string, text: string, force: bool): (r: Doc) {
    var free := FreeIndexes(d.lines, o);
    var d' := if free != [] then d.(lines := d.lines[free[0] := Line(text, Some(o), true)])
              else if force then AppendLine(d, o, text)
              else d;
    d'.(processed := d.processed + {o})
  }

  datatype Event = Emit(option: string, text: string, force: bool) | Mark(option: string)

  function Apply(d: Doc, e: Event): (r: Doc) {
    match e
    case Emit(o, text, force) => RewriteLine(d, o, text, force)
    case Mark(o) => d.(processed := d.processed + {o})
  }

  function Run(d: Doc, es: seq<Event>): (r: Doc) {
    if es == [] then d else Apply(Run(d, es[..|es| - 1]), es[|es| - 1])
  }

  function Blanked(l: Line, processed: set<string>): Line {
    if l.tag.Some? && !l.used && l.tag.value in processed then Line([], None, true) else l
  }

  function RemoveOrphaned(d: Doc): (r: Doc)
    ensures |r.lines| == |d.lines|
  {
    d.(lines := seq(|d.lines|, i requires 0 <= i < |d.lines| => Blanked(d.lines[i], d.processed)))
  }

  /** Every run of empty lines becomes one empty line. */
  function Collapse(lines: seq<string>): (r: seq<string>) {
    if lines == [] then []
    else
      var n := |lines| - 1;
      Collapse(lines[..n]) + if lines[n] == [] && n > 0 && lines[n - 1] == [] then [] else [lines[n]]
  }

  function Rewritten(syn: Syntax, content: string, es: seq<Event>): (d: Doc) {
    RemoveOrphaned(Run(ReadFile(syn, content), es))
  }

  function Rewrite(syn: Syntax, content: string, es: seq<Event>): (r: string) {
    Join(Collapse(Texts(Rewritten(syn, content, es).lines)))
  }
}
