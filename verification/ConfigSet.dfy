/**
 * CONFIG SET (config.c): several options are set, then the functions that put them into effect are run, and any
 * failure must leave everything as it was. What each option accepts, and what each apply function does with the
 * configuration, are parameters.
 */
module ConfigSet {
  import opened Base

  /** A table entry. An alias has its own entry, with another name but the same cell. */
  datatype Config = Config(
    name: string, cell: string, apply: Option<string>, immutable: bool, protected: bool, denyLoading: bool)

  /** The three results of a set function: refused (leaving who knows what), a new value, or nothing to do. */
  datatype SetResult = Refused(left: string) | Changed(v: string) | Same

  type Cells = map<string, string>

  type Effects = map<string, string>

  datatype Env = Env(
    table: map<string, Config>,
    set_: (Config, string, string) -> SetResult,
    get: (Config, string) -> string,
    applyOk: (string, Cells) -> bool,
    effect: (string, Cells) -> string,
    damage: (string, Cells) -> string)
  {
    /** Setting an option to the text its value prints as, whatever it holds now, brings that value back. */
    ghost predicate Restores(c: Config, v: string) {
      forall now {:trigger set_(c, now, get(c, v))} ::
        match set_(c, now, get(c, v))
        case Refused(_) => false
        case Changed(x) => x == v
        case Same => now == v
    }
  }

  datatype Reply = Okay | Loading | UnknownOption(name: string) | Failed(name: string)

  /** The stored value after a set function has run, whether it accepted the new one or not. */
  function AfterSet(env: Env, c: Config, now: string, v: string): string {
    match env.set_(c, now, v)
    case Refused(left) => left
    case Changed(x) => x
    case Same => now
  }

  /** What stops the i-th argument, given the entries found before it. */
  function ArgError(env: Env, args: seq<(string, string)>, before: seq<Config>, loading: bool, allowed: bool): Option<Reply>
    requires |before| < |args|
  {
    var name := args[|before|].0;
    if name !in env.table then Some(UnknownOption(name))
    else
      var c := env.table[name];
      if c.immutable || (c.protected && !allowed) then Some(Failed(name))
      else if loading && c.denyLoading then Some(Loading)
      else if c in before then Some(Failed(name))
      else None
  }

  /** The entries named by the arguments, or the first error among them. */
  function Find(env: Env, args: seq<(string, string)>, n: nat, loading: bool, allowed: bool): (r: Result<seq<Config>, Reply>)
    requires n <= |args|
    ensures r.Ok? ==> |r.value| == n
    ensures r.Err? ==> !r.error.Okay?
  {
    if n == 0 then Ok([])
    else match Find(env, args, n - 1, loading, allowed)
      case Err(e) => Err(e)
      case Ok(before) =>
        match ArgError(env, args, before, loading, allowed)
        case Some(e) => Err(e)
        case None => Ok(before + [env.table[args[n - 1].0]])
  }

  /** The i-th argument names an option that an earlier one has named already, be it under an alias. */
  ghost predicate Repeats(env: Env, args: seq<(string, string)>, i: nat)
    requires i < |args|
  {
    exists j :: 0 <= j < i && Names(env, args, j, i)
  }

  predicate Names(env: Env, args: seq<(string, string)>, j: nat, i: nat)
    requires j < |args| && i < |args|
  {
    args[j].0 in env.table && args[i].0 in env.table && env.table[args[j].0] == env.table[args[i].0]
  }

  /** Nothing is wrong with the i-th argument: known, settable under these flags, and not named before. */
  ghost predicate Fine(env: Env, args: seq<(string, string)>, i: nat, loading: bool, allowed: bool)
    requires i < |args|
  {
    args[i].0 in env.table && MaySet(env.table[args[i].0], loading, allowed) && !Repeats(env, args, i)
  }

  predicate MaySet(c: Config, loading: bool, allowed: bool) {
    !c.immutable && (c.protected ==> allowed) && (c.denyLoading ==> !loading)
  }

  /** What the caller is told about an argument that is not fine. */
  function Complaint(env: Env, name: string, loading: bool, allowed: bool): Reply {
    if name !in env.table then UnknownOption(name)
    else
      var c := env.table[name];
      if loading && c.denyLoading && !c.immutable && (c.protected ==> allowed) then Loading else Failed(name)
  }

  /** The first n arguments are fine, and cs are the options they name. */
  ghost predicate AllFine(env: Env, args: seq<(string, string)>, cs: seq<Config>, loading: bool, allowed: bool)
    requires |cs| <= |args|
  {
    && (forall i :: 0 <= i < |cs| ==> Fine(env, args, i, loading, allowed))
    && (forall i :: 0 <= i < |cs| ==> args[i].0 in env.table && cs[i] == env.table[args[i].0])
  }

  /** Argument k is the first that is not fine, and this is the complaint about it. */
  ghost predicate FirstBad(env: Env, args: seq<(string, string)>, k: nat, loading: bool, allowed: bool, error: Reply) {
    && k < |args| && !Fine(env, args, k, loading, allowed) && error == Complaint(env, args[k].0, loading, allowed)
    && forall i :: 0 <= i < k ==> Fine(env, args, i, loading, allowed)
  }

  lemma {:induction false} FoundAreFine(env: Env, args: seq<(string, string)>, n: nat, loading: bool, allowed: bool)
    requires n <= |args| && Find(env, args, n, loading, allowed).Ok?
    ensures AllFine(env, args, Find(env, args, n, loading, allowed).value, loading, allowed)
    ensures Distinct(Find(env, args, n, loading, allowed).value)
  {
    hide Find, Fine, ArgError, Distinct;
    FindStep(env, args, n, loading, allowed);
    if n == 0 {
      NoneFound();
    } else {
      FoundAreFine(env, args, n - 1, loading, allowed);
      var before := Find(env, args, n - 1, loading, allowed).value;
      ArgErrorExact(env, args, before, loading, allowed);
      NextIsNew(env, args, before, loading, allowed);
    }
  }

  lemma {:induction false} RefusedIsFirst(env: Env, args: seq<(string, string)>, n: nat, loading: bool, allowed: bool)
    returns (k: nat)
    requires n <= |args| && Find(env, args, n, loading, allowed).Err?
    ensures k < n && FirstBad(env, args, k, loading, allowed, Find(env, args, n, loading, allowed).error)
  {
    hide Find, Fine, Complaint, ArgError, Distinct;
    FindStep(env, args, n, loading, allowed);
    var before := Find(env, args, n - 1, loading, allowed);
    if before.Err? {
      k := RefusedIsFirst(env, args, n - 1, loading, allowed);
    } else {
      FoundAreFine(env, args, n - 1, loading, allowed);
      ArgErrorExact(env, args, before.value, loading, allowed);
      k := n - 1;
    }
  }

  /**
   * The arguments are accepted exactly when each of them is fine, and are then the options they name, all different;
   * otherwise the answer is the complaint about the first that is not.
   */
  lemma {:induction false} FindExact(env: Env, args: seq<(string, string)>, loading: bool, allowed: bool)
    ensures var r := Find(env, args, |args|, loading, allowed);
      && (r.Ok? <==> forall i :: 0 <= i < |args| ==> Fine(env, args, i, loading, allowed))
      && (r.Ok? ==> Distinct(r.value) && AllFine(env, args, r.value, loading, allowed))
      && (r.Err? ==> exists k: nat :: FirstBad(env, args, k, loading, allowed, r.error))
  {
    hide Find, Fine, Complaint, Distinct;
    if Find(env, args, |args|, loading, allowed).Ok? {
      FoundAreFine(env, args, |args|, loading, allowed);
    } else {
      var k := RefusedIsFirst(env, args, |args|, loading, allowed);
    }
  }

  lemma {:induction false} NoneFound()
    ensures Distinct<Config>([])
  {
  }

  lemma {:induction false} FindStep(env: Env, args: seq<(string, string)>, n: nat, loading: bool, allowed: bool)
    requires n <= |args|
    ensures n == 0 ==> Find(env, args, n, loading, allowed) == Ok([])
    ensures n > 0 ==>
      var before := Find(env, args, n - 1, loading, allowed);
      && (before.Err? ==> Find(env, args, n, loading, allowed) == before)
      && (before.Ok? ==>
        var error := ArgError(env, args, before.value, loading, allowed);
        && (error.Some? ==> Find(env, args, n, loading, allowed) == Err(error.value))
        && (error.None? ==> args[n - 1].0 in env.table)
        && (error.None? ==> Find(env, args, n, loading, allowed) == Ok(before.value + [env.table[args[n - 1].0]])))
  {
  }

  lemma {:induction false} ArgErrorExact(
    env: Env, args: seq<(string, string)>, before: seq<Config>, loading: bool, allowed: bool)
    requires |before| < |args|
    requires forall i :: 0 <= i < |before| ==> args[i].0 in env.table && before[i] == env.table[args[i].0]
    ensures var n, error := |before|, ArgError(env, args, before, loading, allowed);
      && (error.None? <==> Fine(env, args, n, loading, allowed))
      && (error.Some? ==> error.value == Complaint(env, args[n].0, loading, allowed))
  {
    var n := |before|;
    if args[n].0 in env.table {
      var c := env.table[args[n].0];
      if c in before {
        var j :| 0 <= j < |before| && before[j] == c;
        assert Names(env, args, j, n);
      }
      if Repeats(env, args, n) {
        var j :| 0 <= j < n && Names(env, args, j, n);
        assert before[j] == c;
      }
    }
  }

  lemma {:induction false} NextIsNew(
    env: Env, args: seq<(string, string)>, before: seq<Config>, loading: bool, allowed: bool)
    requires |before| < |args| && ArgError(env, args, before, loading, allowed).None? && Distinct(before)
    ensures args[|before|].0 in env.table && Distinct(before + [env.table[args[|before|].0]])
  {
    hide Distinct;
    DistinctAppend(before, env.table[args[|before|].0]);
  }

  ghost predicate HaveCells(cells: Cells, cs: seq<Config>) {
    forall i :: 0 <= i < |cs| ==> cs[i].cell in cells
  }

  /** Setting the first n options one after the other; an alias and its primary name write the same cell. */
  function SetFirst(env: Env, cells: Cells, cs: seq<Config>, vs: seq<string>, n: nat): (r: Option<Cells>)
    requires n <= |cs| == |vs| && HaveCells(cells, cs)
    ensures r.Some? ==> r.value.Keys == cells.Keys
  {
    if n == 0 then Some(cells)
    else match SetFirst(env, cells, cs, vs, n - 1)
      case None => None
      case Some(m) =>
        var c := cs[n - 1];
        match env.set_(c, m[c.cell], vs[n - 1])
        case Refused(_) => None
        case Changed(x) => Some(m[c.cell := x])
        case Same => Some(m)
  }

  /** The apply functions of the first n options that took a new value, each once, in order of first use. */
  function Applies(env: Env, cells: Cells, cs: seq<Config>, vs: seq<string>, n: nat): (r: seq<string>)
    requires n <= |cs| == |vs| && HaveCells(cells, cs) && SetFirst(env, cells, cs, vs, n).Some?
    ensures |r| <= n
  {
    if n == 0 then []
    else
      var fs, m, c := Applies(env, cells, cs, vs, n - 1), SetFirst(env, cells, cs, vs, n - 1).value, cs[n - 1];
      if env.set_(c, m[c.cell], vs[n - 1]).Changed? && c.apply.Some? && c.apply.value !in fs then fs + [c.apply.value]
      else fs
  }

  /** The i-th option was given a new value. */
  predicate TookValue(env: Env, cells: Cells, cs: seq<Config>, vs: seq<string>, i: nat)
    requires i < |cs| == |vs| && HaveCells(cells, cs)
  {
    SetFirst(env, cells, cs, vs, i).Some? &&
    env.set_(cs[i], SetFirst(env, cells, cs, vs, i).value[cs[i].cell], vs[i]).Changed?
  }

  lemma AppliesLast(env: Env, cells: Cells, cs: seq<Config>, vs: seq<string>, n: nat)
    requires 0 < n <= |cs| == |vs| && HaveCells(cells, cs) && SetFirst(env, cells, cs, vs, n).Some?
    ensures var fs, gs := Applies(env, cells, cs, vs, n - 1), Applies(env, cells, cs, vs, n);
            && (Distinct(fs) ==> Distinct(gs))
            && forall f :: f in gs <==> f in fs || (cs[n - 1].apply == Some(f) && TookValue(env, cells, cs, vs, n - 1))
  {
    var fs := Applies(env, cells, cs, vs, n - 1);
    if cs[n - 1].apply.Some? {
      DistinctAppend(fs, cs[n - 1].apply.value);
    }
  }

  ghost predicate AppliedBy(env: Env, cells: Cells, cs: seq<Config>, vs: seq<string>, n: nat, f: string)
    requires n <= |cs| == |vs| && HaveCells(cells, cs)
  {
    exists i :: 0 <= i < n && cs[i].apply == Some(f) && TookValue(env, cells, cs, vs, i)
  }

  /** Each apply function is listed once, and it is listed exactly when some option that took a new value has it. */
  lemma {:induction false} AppliesExact(env: Env, cells: Cells, cs: seq<Config>, vs: seq<string>, n: nat)
    requires n <= |cs| == |vs| && HaveCells(cells, cs) && SetFirst(env, cells, cs, vs, n).Some?
    ensures Distinct(Applies(env, cells, cs, vs, n))
    ensures forall f :: f in Applies(env, cells, cs, vs, n) <==> AppliedBy(env, cells, cs, vs, n, f)
  {
    hide TookValue, SetFirst, Distinct;
    if n == 0 {
      NoApplies(env, cells, cs, vs);
    } else {
      SetFirstPrefix(env, cells, cs, vs, n);
      AppliesExact(env, cells, cs, vs, n - 1);
      AppliesLast(env, cells, cs, vs, n);
      forall f {
        AppliedByStep(env, cells, cs, vs, n, f);
      }
    }
  }

  lemma {:induction false} NoApplies(env: Env, cells: Cells, cs: seq<Config>, vs: seq<string>)
    requires |cs| == |vs| && HaveCells(cells, cs)
    ensures SetFirst(env, cells, cs, vs, 0).Some?
    ensures Applies(env, cells, cs, vs, 0) == [] && Distinct(Applies(env, cells, cs, vs, 0))
  {
  }

  lemma SetFirstPrefix(env: Env, cells: Cells, cs: seq<Config>, vs: seq<string>, n: nat)
    requires 0 < n <= |cs| == |vs| && HaveCells(cells, cs) && SetFirst(env, cells, cs, vs, n).Some?
    ensures SetFirst(env, cells, cs, vs, n - 1).Some?
  {
  }

  lemma AppliedByStep(env: Env, cells: Cells, cs: seq<Config>, vs: seq<string>, n: nat, f: string)
    requires 0 < n <= |cs| == |vs| && HaveCells(cells, cs)
    ensures AppliedBy(env, cells, cs, vs, n, f) <==>
      AppliedBy(env, cells, cs, vs, n - 1, f) || (cs[n - 1].apply == Some(f) && TookValue(env, cells, cs, vs, n - 1))
  {
    hide TookValue;
  }

  // ------------------------------------------------------------------ failure and roll-back

  /** The old values as texts. */
  function OldTexts(env: Env, cells: Cells, cs: seq<Config>): (r: seq<string>)
    requires HaveCells(cells, cs)
    ensures |r| == |cs|
  {
    seq(|cs|, i requires 0 <= i < |cs| => env.get(cs[i], cells[cs[i].cell]))
  }

  /** Setting the first n options to the given texts, one after the other, whether each is accepted or not. */
  function RestoreFirst(env: Env, cells: Cells, cs: seq<Config>, texts: seq<string>, n: nat): (r: Cells)
    requires n <= |cs| == |texts| && HaveCells(cells, cs)
    ensures r.Keys == cells.Keys
  {
    if n == 0 then cells
    else
      var m, c := RestoreFirst(env, cells, cs, texts, n - 1), cs[n - 1];
      m[c.cell := AfterSet(env, c, m[c.cell], texts[n - 1])]
  }

  /** Running the first n apply functions; one that fails leaves damage. */
  function ApplyFirst(env: Env, effects: Effects, cells: Cells, fs: seq<string>, n: nat): (r: Effects)
    requires n <= |fs|
  {
    if n == 0 then effects
    else
      var f := fs[n - 1];
      ApplyFirst(env, effects, cells, fs, n - 1)[f := if env.applyOk(f, cells) then env.effect(f, cells) else env.damage(f, cells)]
  }

  /** The option that is refused. */
  function Refusal(env: Env, cells: Cells, cs: seq<Config>, vs: seq<string>, n: nat): (i: nat)
    requires n <= |cs| == |vs| && HaveCells(cells, cs) && SetFirst(env, cells, cs, vs, n) == None
    ensures i < n && SetFirst(env, cells, cs, vs, i).Some?
    ensures env.set_(cs[i], SetFirst(env, cells, cs, vs, i).value[cs[i].cell], vs[i]).Refused?
  {
    if SetFirst(env, cells, cs, vs, n - 1) == None then Refusal(env, cells, cs, vs, n - 1) else n - 1
  }

  /** The first apply function that fails. */
  function FirstFailure(env: Env, cells: Cells, fs: seq<string>): (r: Option<nat>)
    ensures r.None? ==> forall f :: f in fs ==> env.applyOk(f, cells)
    ensures r.Some? ==> r.value < |fs| && !env.applyOk(fs[r.value], cells)
    ensures r.Some? ==> forall j :: 0 <= j < r.value ==> env.applyOk(fs[j], cells)
  {
    if fs == [] then None
    else
      var n := |fs| - 1;
      match FirstFailure(env, cells, fs[..n])
      case Some(j) => Some(j)
      case None => if env.applyOk(fs[n], cells) then None else Some(n)
  }

  /** The cells when an option has just been refused, after those before it were set. */
  function Spoilt(env: Env, cells: Cells, cs: seq<Config>, vs: seq<string>): (r: Cells)
    requires |cs| == |vs| && HaveCells(cells, cs) && SetFirst(env, cells, cs, vs, |cs|) == None
    ensures r.Keys == cells.Keys
  {
    var i := Refusal(env, cells, cs, vs, |cs|);
    var m := SetFirst(env, cells, cs, vs, i).value;
    m[cs[i].cell := env.set_(cs[i], m[cs[i].cell], vs[i]).left]
  }

  /** What a command that fails after its options were found leaves behind, for whatever the roll-back manages. */
  function RolledBack(env: Env, cells: Cells, effects: Effects, cs: seq<Config>, vs: seq<string>): (r: (Cells, Effects))
    requires |cs| == |vs| && HaveCells(cells, cs)
  {
    var texts := OldTexts(env, cells, cs);
    match SetFirst(env, cells, cs, vs, |cs|)
    case None =>
      var i := Refusal(env, cells, cs, vs, |cs|);
      (RestoreFirst(env, Spoilt(env, cells, cs, vs), cs, texts, i + 1), effects)
    case Some(m) =>
      var fs := Applies(env, cells, cs, vs, |cs|);
      match FirstFailure(env, m, fs)
      case None => (m, effects)
      case Some(j) =>
        var restored := RestoreFirst(env, m, cs, texts, |cs|);
        (restored, ApplyFirst(env, ApplyFirst(env, effects, m, fs, j + 1), restored, fs, |fs|))
  }

  /** Every option takes its value, and the apply functions concerned succeed on the result. */
  ghost predicate Accepted(env: Env, before: Cells, cs: seq<Config>, vs: seq<string>)
    requires |cs| == |vs| && HaveCells(before, cs)
  {
    SetFirst(env, before, cs, vs, |cs|).Some? &&
    forall f :: f in Applies(env, before, cs, vs, |cs|) ==> env.applyOk(f, SetFirst(env, before, cs, vs, |cs|).value)
  }

  /** Cells other than those of the given options are as before. */
  ghost predicate OthersKept(cells: Cells, before: Cells, cs: seq<Config>, n: nat)
    requires n <= |cs|
  {
    && cells.Keys == before.Keys
    && forall k :: k in cells && cells[k] != before[k] ==> exists i :: 0 <= i < n && cs[i].cell == k
  }

  /** The last of the first n options that writes a cell. */
  function LastWriter(cs: seq<Config>, n: nat, k: string): (r: Option<nat>)
    requires n <= |cs|
    ensures r.Some? ==> r.value < n && cs[r.value].cell == k && forall j :: r.value < j < n ==> cs[j].cell != k
    ensures r.None? ==> forall j :: 0 <= j < n ==> cs[j].cell != k
  {
    if n == 0 then None else if cs[n - 1].cell == k then Some(n - 1) else LastWriter(cs, n - 1, k)
  }

  /** The last write of the roll-back to cell k, if there is one, brings its old value back. */
  ghost predicate LastWriteRestores(env: Env, now: Cells, before: Cells, cs: seq<Config>, n: nat, k: string)
    requires n <= |cs| && HaveCells(before, cs) && now.Keys == before.Keys && k in before
  {
    var texts := OldTexts(env, before, cs);
    match LastWriter(cs, n, k)
    case None => true
    case Some(i) => AfterSet(env, cs[i], RestoreFirst(env, now, cs, texts, i)[k], texts[i]) == before[k]
  }

  lemma {:induction false} RestoredValue(env: Env, now: Cells, cs: seq<Config>, texts: seq<string>, n: nat, k: string)
    requires n <= |cs| == |texts| && HaveCells(now, cs) && k in now
    ensures RestoreFirst(env, now, cs, texts, n)[k] ==
            match LastWriter(cs, n, k)
            case None => now[k]
            case Some(i) => AfterSet(env, cs[i], RestoreFirst(env, now, cs, texts, i)[k], texts[i])
  {
    hide RestoreFirst, AfterSet, HaveCells;
    RestoreStep(env, now, cs, texts, n, k);
    if n > 0 && cs[n - 1].cell != k {
      RestoredValue(env, now, cs, texts, n - 1, k);
    }
  }

  lemma {:induction false} RestoreStep(env: Env, now: Cells, cs: seq<Config>, texts: seq<string>, n: nat, k: string)
    requires n <= |cs| == |texts| && HaveCells(now, cs) && k in now
    ensures RestoreFirst(env, now, cs, texts, n)[k] ==
            if n == 0 then now[k]
            else
              var m := RestoreFirst(env, now, cs, texts, n - 1);
              if cs[n - 1].cell == k then AfterSet(env, cs[n - 1], m[k], texts[n - 1]) else m[k]
  {
    hide AfterSet;
  }

  /**
   * Exactly when the roll-back returns every cell: for each cell written, also when an alias and its primary name both
   * wrote it, the last old text set again must bring the old value back.
   */
  lemma {:induction false} RestoresIffLastWrites(env: Env, now: Cells, before: Cells, cs: seq<Config>, n: nat)
    requires n <= |cs| && HaveCells(before, cs) && OthersKept(now, before, cs, n)
    ensures RestoreFirst(env, now, cs, OldTexts(env, before, cs), n) == before <==>
            forall k :: k in before ==> LastWriteRestores(env, now, before, cs, n, k)
  {
    hide AfterSet, RestoreFirst;
    var texts := OldTexts(env, before, cs);
    var r := RestoreFirst(env, now, cs, texts, n);
    forall k | k in before
      ensures r[k] == before[k] <==> LastWriteRestores(env, now, before, cs, n, k)
    {
      RestoredValue(env, now, cs, texts, n, k);
    }
  }

  lemma {:induction false} SetFirstKeepsOthers(env: Env, cells: Cells, cs: seq<Config>, vs: seq<string>, n: nat)
    requires n <= |cs| == |vs| && HaveCells(cells, cs) && SetFirst(env, cells, cs, vs, n).Some?
    ensures OthersKept(SetFirst(env, cells, cs, vs, n).value, cells, cs, n)
  {
    if n > 0 {
      SetFirstKeepsOthers(env, cells, cs, vs, n - 1);
    }
  }

  lemma {:induction false} SpoiltKeepsOthers(env: Env, cells: Cells, cs: seq<Config>, vs: seq<string>)
    requires |cs| == |vs| && HaveCells(cells, cs) && SetFirst(env, cells, cs, vs, |cs|) == None
    ensures OthersKept(Spoilt(env, cells, cs, vs), cells, cs, Refusal(env, cells, cs, vs, |cs|) + 1)
  {
    hide SetFirst;
    SetFirstKeepsOthers(env, cells, cs, vs, Refusal(env, cells, cs, vs, |cs|));
  }

  // ------------------------------------------------------------------ settled configurations

  /**
   * What a complete roll-back relies on: each option's present value can be set again from its text, and the apply
   * functions have been run on the present configuration and succeed on it.
   */
  ghost predicate Settled(env: Env, cells: Cells, effects: Effects) {
    && (forall name :: name in env.table ==> SettledOption(env, env.table[name], cells, effects))
    && (forall f :: f in effects ==> env.applyOk(f, cells) && effects[f] == env.effect(f, cells))
  }

  ghost predicate SettledOption(env: Env, c: Config, cells: Cells, effects: Effects) {
    c.cell in cells && env.Restores(c, cells[c.cell]) && (c.apply.Some? ==> c.apply.value in effects)
  }

  /** In a settled configuration every text set again brings its value back. */
  lemma {:induction false} SettledRestores(env: Env, now: Cells, before: Cells, effects: Effects, cs: seq<Config>, n: nat)
    requires n <= |cs| && HaveCells(before, cs) && OthersKept(now, before, cs, n) && Settled(env, before, effects)
    requires forall i :: 0 <= i < |cs| ==> InTable(env, cs[i])
    ensures RestoreFirst(env, now, cs, OldTexts(env, before, cs), n) == before
  {
    hide RestoreFirst;
    forall k | k in before
      ensures LastWriteRestores(env, now, before, cs, n, k)
    {
      var w := LastWriter(cs, n, k);
      if w.Some? {
        var c := cs[w.value];
        assert InTable(env, c);
        RestoresAnyway(env, c, before[k], RestoreFirst(env, now, cs, OldTexts(env, before, cs), w.value)[k]);
      }
    }
    hide Settled, LastWriteRestores;
    RestoresIffLastWrites(env, now, before, cs, n);
  }

  lemma {:induction false} RestoresAnyway(env: Env, c: Config, v: string, now: string)
    requires env.Restores(c, v)
    ensures AfterSet(env, c, now, env.get(c, v)) == v
  {
    assert env.set_(c, now, env.get(c, v)) == env.set_(c, now, env.get(c, v));
  }

  ghost predicate InTable(env: Env, c: Config) {
    exists name :: name in env.table && env.table[name] == c
  }

  lemma {:induction false} AppliedEffect(env: Env, effects: Effects, cells: Cells, fs: seq<string>, n: nat, f: string)
    requires n <= |fs|
    ensures var r := ApplyFirst(env, effects, cells, fs, n);
      && (f in fs[..n] ==> f in r && r[f] == if env.applyOk(f, cells) then env.effect(f, cells) else env.damage(f, cells))
      && (f !in fs[..n] ==> (f in r <==> f in effects) && (f in r ==> r[f] == effects[f]))
  {
    if n > 0 {
      AppliedEffect(env, effects, cells, fs, n - 1, f);
      assert fs[..n] == fs[..n - 1] + [fs[n - 1]];
    }
  }

  /** Running the functions again on the old cells undoes whatever they did or damaged. */
  lemma {:induction false} Reapplied(env: Env, effects: Effects, m: Cells, cells: Cells, fs: seq<string>, j: nat)
    requires j <= |fs| && (forall f :: f in fs ==> f in effects)
    requires forall f :: f in effects ==> env.applyOk(f, cells) && effects[f] == env.effect(f, cells)
    ensures ApplyFirst(env, ApplyFirst(env, effects, m, fs, j), cells, fs, |fs|) == effects
  {
    hide ApplyFirst;
    var e1 := ApplyFirst(env, effects, m, fs, j);
    var e2 := ApplyFirst(env, e1, cells, fs, |fs|);
    assert fs[..|fs|] == fs && forall f :: f in fs[..j] ==> f in fs;
    forall f
      ensures f in e2 <==> f in effects
      ensures f in e2 ==> e2[f] == effects[f]
    {
      AppliedEffect(env, effects, m, fs, j, f);
      AppliedEffect(env, e1, cells, fs, |fs|, f);
    }
  }

  /** All or nothing: from a settled configuration, a command that fails leaves every cell and every effect as it was. */
  lemma {:induction false} SettledRollsBack(env: Env, cells: Cells, effects: Effects, cs: seq<Config>, vs: seq<string>)
    requires |cs| == |vs| && HaveCells(cells, cs) && Settled(env, cells, effects) && !Accepted(env, cells, cs, vs)
    requires forall i :: 0 <= i < |cs| ==> InTable(env, cs[i])
    ensures RolledBack(env, cells, effects, cs, vs) == (cells, effects)
  {
    hide SetFirst, Applies, RestoreFirst, ApplyFirst, Spoilt, SettledOption, OthersKept, InTable, Refusal;
    if SetFirst(env, cells, cs, vs, |cs|) == None {
      SpoiltKeepsOthers(env, cells, cs, vs);
      SettledRestores(env, Spoilt(env, cells, cs, vs), cells, effects, cs, Refusal(env, cells, cs, vs, |cs|) + 1);
    } else {
      var m := SetFirst(env, cells, cs, vs, |cs|).value;
      var fs := Applies(env, cells, cs, vs, |cs|);
      SetFirstKeepsOthers(env, cells, cs, vs, |cs|);
      SettledRestores(env, m, cells, effects, cs, |cs|);
      AppliesKnown(env, cells, effects, cs, vs);
      Reapplied(env, effects, m, cells, fs, FirstFailure(env, m, fs).value + 1);
    }
  }

  lemma {:induction false} AppliesKnown(env: Env, cells: Cells, effects: Effects, cs: seq<Config>, vs: seq<string>)
    requires |cs| == |vs| && HaveCells(cells, cs) && SetFirst(env, cells, cs, vs, |cs|).Some?
    requires Settled(env, cells, effects) && forall i :: 0 <= i < |cs| ==> InTable(env, cs[i])
    ensures forall f :: f in Applies(env, cells, cs, vs, |cs|) ==> f in effects
  {
    AppliesExact(env, cells, cs, vs, |cs|);
    hide SetFirst, Applies, Env.Restores, TookValue;
    forall f | f in Applies(env, cells, cs, vs, |cs|)
      ensures f in effects
    {
      assert AppliedBy(env, cells, cs, vs, |cs|, f);
      var i :| 0 <= i < |cs| && cs[i].apply == Some(f) && TookValue(env, cells, cs, vs, i);
      assert InTable(env, cs[i]);
    }
  }

  // ------------------------------------------------------------------ staying settled

  /** Two configurations agree on the cells of the options that have this apply function. */
  ghost predicate Agree(env: Env, f: string, x: Cells, y: Cells) {
    forall name :: name in env.table && env.table[name].apply == Some(f) ==>
      var k := env.table[name].cell;
      (k in x <==> k in y) && (k in x ==> x[k] == y[k])
  }

  /**
   * A table that fits together: names for the same cell have the same apply function, an apply function looks only at
   * the cells of its own options, and every value that can be set can be set again from its text.
   */
  ghost predicate WellBehaved(env: Env) {
    && (forall a, b :: a in env.table && b in env.table && env.table[a].cell == env.table[b].cell ==>
      env.table[a].apply == env.table[b].apply)
    && (forall f, x, y :: Agree(env, f, x, y) ==>
      env.applyOk(f, x) == env.applyOk(f, y) && env.effect(f, x) == env.effect(f, y))
    && (forall a, b :: a in env.table && b in env.table && env.table[a].cell == env.table[b].cell ==>
      GivesRestorable(env, env.table[a], env.table[b]))
  }

  /** A value that one name for a cell can be given can be set again under the other. */
  ghost predicate GivesRestorable(env: Env, c: Config, d: Config) {
    forall now, v {:trigger env.set_(c, now, v)} ::
      match env.set_(c, now, v)
      case Changed(x) => env.Restores(d, x)
      case _ => true
  }

  /** A cell keeps its value, or has the one that the last option to write it was given. */
  lemma {:induction false} CellFrom(env: Env, cells: Cells, cs: seq<Config>, vs: seq<string>, n: nat, k: string) returns (i: nat)
    requires n <= |cs| == |vs| && HaveCells(cells, cs) && SetFirst(env, cells, cs, vs, n).Some? && k in cells
    ensures SetFirst(env, cells, cs, vs, n).value[k] == cells[k] ||
      (i < n && cs[i].cell == k && TookValue(env, cells, cs, vs, i) &&
       env.set_(cs[i], SetFirst(env, cells, cs, vs, i).value[k], vs[i]) == Changed(SetFirst(env, cells, cs, vs, n).value[k]))
  {
    i := 0;
    if n > 0 {
      SetFirstStep(env, cells, cs, vs, n);
      i := CellFrom(env, cells, cs, vs, n - 1, k);
      var m := SetFirst(env, cells, cs, vs, n - 1).value;
      if cs[n - 1].cell == k && env.set_(cs[n - 1], m[k], vs[n - 1]).Changed? {
        i := n - 1;
      }
    }
  }

  lemma {:induction false} StaysRestorable(env: Env, cells: Cells, cs: seq<Config>, vs: seq<string>, name: string)
    requires |cs| == |vs| && HaveCells(cells, cs) && SetFirst(env, cells, cs, vs, |cs|).Some?
    requires WellBehaved(env) && forall i :: 0 <= i < |cs| ==> InTable(env, cs[i])
    requires name in env.table && env.table[name].cell in cells
    requires env.Restores(env.table[name], cells[env.table[name].cell])
    ensures env.Restores(env.table[name], SetFirst(env, cells, cs, vs, |cs|).value[env.table[name].cell])
  {
    hide SetFirst, Env.Restores;
    var k := env.table[name].cell;
    var i := CellFrom(env, cells, cs, vs, |cs|, k);
    if SetFirst(env, cells, cs, vs, |cs|).value[k] != cells[k] {
      assert InTable(env, cs[i]);
      var a :| a in env.table && env.table[a] == cs[i];
      assert GivesRestorable(env, env.table[a], env.table[name]);
      assert env.set_(env.table[a], SetFirst(env, cells, cs, vs, i).value[k], vs[i]).Changed?;
    }
  }

  /** An apply function that was not called for has nothing new to look at. */
  lemma {:induction false} UncalledAgrees(env: Env, cells: Cells, cs: seq<Config>, vs: seq<string>, f: string)
    requires |cs| == |vs| && HaveCells(cells, cs) && SetFirst(env, cells, cs, vs, |cs|).Some?
    requires WellBehaved(env) && forall i :: 0 <= i < |cs| ==> InTable(env, cs[i])
    requires f !in Applies(env, cells, cs, vs, |cs|)
    ensures Agree(env, f, cells, SetFirst(env, cells, cs, vs, |cs|).value)
  {
    AppliesExact(env, cells, cs, vs, |cs|);
    hide SetFirst, Env.Restores, Applies, TookValue;
    var m := SetFirst(env, cells, cs, vs, |cs|).value;
    forall name | name in env.table && env.table[name].apply == Some(f) && env.table[name].cell in cells
      ensures m[env.table[name].cell] == cells[env.table[name].cell]
    {
      var i := CellFrom(env, cells, cs, vs, |cs|, env.table[name].cell);
    }
  }

  /** A command that succeeds leaves a settled configuration settled, so that the next one can be rolled back too. */
  lemma {:induction false} StaysSettled(env: Env, cells: Cells, effects: Effects, cs: seq<Config>, vs: seq<string>)
    requires |cs| == |vs| && HaveCells(cells, cs) && Settled(env, cells, effects) && Accepted(env, cells, cs, vs)
    requires WellBehaved(env) && forall i :: 0 <= i < |cs| ==> InTable(env, cs[i])
    ensures var m, fs := SetFirst(env, cells, cs, vs, |cs|).value, Applies(env, cells, cs, vs, |cs|);
      Settled(env, m, ApplyFirst(env, effects, m, fs, |fs|))
  {
    hide SetFirst, Env.Restores, Applies, ApplyFirst, InTable, WellBehaved;
    var m, fs := SetFirst(env, cells, cs, vs, |cs|).value, Applies(env, cells, cs, vs, |cs|);
    var e := ApplyFirst(env, effects, m, fs, |fs|);
    assert fs[..|fs|] == fs;
    forall f
      ensures f in effects ==> f in e
      ensures f in e ==> env.applyOk(f, m) && e[f] == env.effect(f, m)
    {
      AppliedEffect(env, effects, m, fs, |fs|, f);
      if f !in fs {
        UncalledAgrees(env, cells, cs, vs, f);
        SameEffect(env, f, cells, m);
      }
    }
    forall name | name in env.table
      ensures SettledOption(env, env.table[name], m, e)
    {
      assert SettledOption(env, env.table[name], cells, effects);
      StaysRestorable(env, cells, cs, vs, name);
    }
  }

  lemma {:induction false} SameEffect(env: Env, f: string, x: Cells, y: Cells)
    requires WellBehaved(env) && Agree(env, f, x, y)
    ensures env.applyOk(f, x) == env.applyOk(f, y) && env.effect(f, x) == env.effect(f, y)
  {
  }

  function Values(args: seq<(string, string)>): (r: seq<string>)
    ensures |r| == |args|
  {
    seq(|args|, i requires 0 <= i < |args| => args[i].1)
  }

  // ------------------------------------------------------------------ the command, argument by argument

  /** What an option makes of a new text, if it takes it. */
  function Taken(env: Env, c: Config, now: string, text: string): (v: Option<string>) {
    match env.set_(c, now, text)
    case Refused(_) => None
    case Changed(x) => Some(x)
    case Same => Some(now)
  }

  ghost predicate AllKnown(env: Env, args: seq<(string, string)>) {
    forall i :: 0 <= i < |args| ==> args[i].0 in env.table
  }

  /** The option that an argument names. */
  function Named(env: Env, args: seq<(string, string)>, i: nat): Config
    requires i < |args| && args[i].0 in env.table
  {
    env.table[args[i].0]
  }

  /** The value of cell k after the first n arguments, each given its own text; None when one that writes k is refused. */
  ghost function CellAfter(env: Env, args: seq<(string, string)>, n: nat, k: string, start: string): (v: Option<string>)
    requires n <= |args| && AllKnown(env, args)
  {
    if n == 0 then Some(start)
    else
      var before := CellAfter(env, args, n - 1, k, start);
      if before.None? || Named(env, args, n - 1).cell != k then before
      else Taken(env, Named(env, args, n - 1), before.value, args[n - 1].1)
  }

  /** Argument i comes to its turn, is offered its own text on what the cell then holds, and the option answers so. */
  ghost predicate Meets(env: Env, before: Cells, args: seq<(string, string)>, i: nat, answer: SetResult)
    requires AllKnown(env, args) && i < |args| && Named(env, args, i).cell in before
  {
    var c := Named(env, args, i);
    var now := CellAfter(env, args, i, c.cell, before[c.cell]);
    now.Some? && env.set_(c, now.value, args[i].1) == answer
  }

  /** The options found for the arguments. */
  ghost predicate AreNamed(env: Env, args: seq<(string, string)>, cs: seq<Config>, cells: Cells) {
    && AllKnown(env, args) && |cs| == |args| && HaveCells(cells, cs)
    && forall i :: 0 <= i < |args| ==> cs[i] == Named(env, args, i)
  }

  lemma {:induction false} CellStep(env: Env, args: seq<(string, string)>, n: nat, k: string, start: string)
    requires 0 < n <= |args| && AllKnown(env, args)
    ensures var before := CellAfter(env, args, n - 1, k, start);
      CellAfter(env, args, n, k, start) ==
      if before.None? || Named(env, args, n - 1).cell != k then before
      else Taken(env, Named(env, args, n - 1), before.value, args[n - 1].1)
  {
  }

  /** Setting the options in turn gives every cell what its own arguments make of it. */
  lemma {:induction false} SetByArgument(env: Env, cells: Cells, cs: seq<Config>, args: seq<(string, string)>, n: nat)
    requires AreNamed(env, args, cs, cells) && n <= |args| && SetFirst(env, cells, cs, Values(args), n).Some?
    ensures var m := SetFirst(env, cells, cs, Values(args), n).value;
      m.Keys == cells.Keys && forall k :: k in cells ==> CellAfter(env, args, n, k, cells[k]) == Some(m[k])
  {
    hide SetFirst, CellAfter;
    var vs := Values(args);
    if n == 0 {
      NothingSet(env, cells, cs, vs);
      forall k | k in cells ensures CellAfter(env, args, 0, k, cells[k]) == Some(cells[k]) {
        NoArgument(env, args, k, cells[k]);
      }
    } else {
      SetFirstBefore(env, cells, cs, vs, n);
      SetByArgument(env, cells, cs, args, n - 1);
      SetFirstStep(env, cells, cs, vs, n);
      forall k | k in cells
        ensures CellAfter(env, args, n, k, cells[k]) == Some(SetFirst(env, cells, cs, vs, n).value[k])
      {
        CellStep(env, args, n, k, cells[k]);
      }
    }
  }

  lemma {:induction false} NoArgument(env: Env, args: seq<(string, string)>, k: string, start: string)
    requires AllKnown(env, args)
    ensures CellAfter(env, args, 0, k, start) == Some(start)
  {
  }

  lemma {:induction false} SetFirstBefore(env: Env, cells: Cells, cs: seq<Config>, vs: seq<string>, n: nat)
    requires 0 < n <= |cs| == |vs| && HaveCells(cells, cs) && SetFirst(env, cells, cs, vs, n).Some?
    ensures SetFirst(env, cells, cs, vs, n - 1).Some?
  {
  }

  /** The option that stops the command was offered its own text and refused it. */
  lemma {:induction false} RefusedOwnText(env: Env, cells: Cells, cs: seq<Config>, args: seq<(string, string)>)
    requires AreNamed(env, args, cs, cells) && SetFirst(env, cells, cs, Values(args), |cs|) == None
    ensures var i := Refusal(env, cells, cs, Values(args), |cs|);
      exists left :: Meets(env, cells, args, i, Refused(left))
  {
    hide SetFirst, Refusal, CellAfter;
    var i := Refusal(env, cells, cs, Values(args), |cs|);
    SetByArgument(env, cells, cs, args, i);
    var m := SetFirst(env, cells, cs, Values(args), i).value;
    assert Meets(env, cells, args, i, Refused(env.set_(cs[i], m[cs[i].cell], args[i].1).left));
  }

  /** The last argument to write a cell decides what it holds. */
  lemma {:induction false} LastArgumentDecides(env: Env, args: seq<(string, string)>, i: nat, n: nat, start: string)
    requires AllKnown(env, args) && i < n <= |args|
    requires forall j :: i < j < n ==> Named(env, args, j).cell != Named(env, args, i).cell
    ensures var c := Named(env, args, i);
      var now := CellAfter(env, args, i, c.cell, start);
      CellAfter(env, args, n, c.cell, start) == if now.None? then None else Taken(env, c, now.value, args[i].1)
  {
    hide CellAfter;
    CellStep(env, args, n, Named(env, args, i).cell, start);
    if n > i + 1 {
      LastArgumentDecides(env, args, i, n - 1, start);
    }
  }

  /** Some option that has the apply function f was given a new value. */
  ghost predicate CalledFor(env: Env, before: Cells, args: seq<(string, string)>, f: string)
    requires AllKnown(env, args) && forall i :: 0 <= i < |args| ==> Named(env, args, i).cell in before
  {
    exists i: nat, x :: i < |args| && Named(env, args, i).apply == Some(f) && Meets(env, before, args, i, Changed(x))
  }

  lemma {:induction false} AppliedAreCalledFor(env: Env, cells: Cells, cs: seq<Config>, args: seq<(string, string)>, f: string)
    requires AreNamed(env, args, cs, cells) && SetFirst(env, cells, cs, Values(args), |cs|).Some?
    ensures f in Applies(env, cells, cs, Values(args), |cs|) <==> CalledFor(env, cells, args, f)
  {
    hide SetFirst, Applies, CellAfter;
    var vs := Values(args);
    AppliesExact(env, cells, cs, vs, |cs|);
    forall i: nat | i < |cs|
      ensures TookValue(env, cells, cs, vs, i) <==> exists x :: Meets(env, cells, args, i, Changed(x))
    {
      TookOwnText(env, cells, cs, args, i);
    }
  }

  lemma {:induction false} TookOwnText(env: Env, cells: Cells, cs: seq<Config>, args: seq<(string, string)>, i: nat)
    requires AreNamed(env, args, cs, cells) && SetFirst(env, cells, cs, Values(args), |cs|).Some? && i < |cs|
    ensures TookValue(env, cells, cs, Values(args), i) <==> exists x :: Meets(env, cells, args, i, Changed(x))
  {
    hide SetFirst, CellAfter;
    SetFirstUpTo(env, cells, cs, Values(args), i, |cs|);
    SetByArgument(env, cells, cs, args, i);
    var m := SetFirst(env, cells, cs, Values(args), i).value;
    var answer := env.set_(cs[i], m[cs[i].cell], args[i].1);
    if answer.Changed? {
      assert Meets(env, cells, args, i, Changed(answer.v));
    }
  }

  lemma {:induction false} SetFirstUpTo(env: Env, cells: Cells, cs: seq<Config>, vs: seq<string>, i: nat, n: nat)
    requires i <= n <= |cs| == |vs| && HaveCells(cells, cs) && SetFirst(env, cells, cs, vs, n).Some?
    ensures SetFirst(env, cells, cs, vs, i).Some?
    decreases n
  {
    hide SetFirst;
    if i < n {
      SetFirstBefore(env, cells, cs, vs, n);
      SetFirstUpTo(env, cells, cs, vs, i, n - 1);
    }
  }

  // ------------------------------------------------------------------ the command

  class Server {
    var cells: Cells
    var effects: Effects
    const loading: bool
    const allowProtected: bool

    constructor (cells: Cells, effects: Effects, loading: bool, allowProtected: bool)
      ensures this.cells == cells && this.effects == effects
      ensures this.loading == loading && this.allowProtected == allowProtected
    {
      this.cells, this.effects, this.loading, this.allowProtected := cells, effects, loading, allowProtected;
    }

    method FindConfigs(env: Env, args: seq<(string, string)>) returns (r: Result<seq<Config>, Reply>)
      ensures r == Find(env, args, |args|, loading, allowProtected)
    {
      r := Ok([]);
      for i := 0 to |args|
        invariant r == Find(env, args, i, loading, allowProtected)
      {
        if r.Ok? {
          var error := ArgError(env, args, r.value, loading, allowProtected);
          r := if error.Some? then Err(error.value) else Ok(r.value + [env.table[args[i].0]]);
        }
      }
    }

    /** performInterfaceSet; returns 0, 1 or 2. */
    method InterfaceSet(env: Env, c: Config, v: string) returns (res: nat)
      requires c.cell in cells
      modifies this`cells
      ensures cells == old(cells)[c.cell := AfterSet(env, c, old(cells)[c.cell], v)]
      ensures res == match env.set_(c, old(cells)[c.cell], v) case Refused(_) => 0 case Changed(_) => 1 case Same => 2
    {
      match env.set_(c, cells[c.cell], v)
      case Refused(left) =>
        cells := cells[c.cell := left];
        res := 0;
      case Changed(x) =>
        cells := cells[c.cell := x];
        res := 1;
      case Same =>
        assert cells[c.cell := cells[c.cell]] == cells;
        res := 2;
    }

    /** Runs one apply function: on failure its effect is whatever it made of it. */
    method Apply(env: Env, f: string) returns (ok: bool)
      modifies this`effects
      ensures ok <==> env.applyOk(f, cells)
      ensures effects == old(effects)[f := if ok then env.effect(f, cells) else env.damage(f, cells)]
    {
      ok := env.applyOk(f, cells);
      effects := effects[f := if ok then env.effect(f, cells) else env.damage(f, cells)];
    }

    /** Sets the first count options back to their old texts; an option that refuses its text is passed over. */
    method RestoreCells(env: Env, cs: seq<Config>, oldTexts: seq<string>, count: nat)
      requires count <= |cs| == |oldTexts| && HaveCells(cells, cs)
      modifies this`cells
      ensures cells == RestoreFirst(env, old(cells), cs, oldTexts, count)
    {
      hide AfterSet;
      var i := 0;
      while i < count
        invariant 0 <= i <= count && cells == RestoreFirst(env, old(cells), cs, oldTexts, i)
      {
        var res := InterfaceSet(env, cs[i], oldTexts[i]);
        i := i + 1;
      }
    }

    /** Runs every stored apply function again, up to the first free place of the list; failures are passed over. */
    method ApplyAll(env: Env, applyFns: array<Option<string>>, ghost fs: seq<string>)
      requires Listed(applyFns, fs)
      modifies this`effects
      ensures effects == ApplyFirst(env, old(effects), cells, fs, |fs|)
    {
      var i := 0;
      while i < applyFns.Length && applyFns[i].Some?
        invariant 0 <= i <= |fs| && effects == ApplyFirst(env, old(effects), cells, fs, i)
      {
        var ok := Apply(env, applyFns[i].value);
        i := i + 1;
      }
    }

    /** The loop that sets all options, collecting their apply functions; returns the option that was refused, if any. */
    method SetAll(env: Env, cs: seq<Config>, vs: seq<string>, applyFns: array<Option<string>>, mapFns: array<nat>)
      returns (refused: Option<nat>)
      requires |cs| == |vs| == applyFns.Length == mapFns.Length && HaveCells(cells, cs)
      requires forall j :: 0 <= j < applyFns.Length ==> applyFns[j] == None
      modifies this`cells, applyFns, mapFns
      ensures match SetFirst(env, old(cells), cs, vs, |cs|)
              case Some(m) =>
                && refused == None && cells == m
                && Listed(applyFns, Applies(env, old(cells), cs, vs, |cs|))
                && Mapped(mapFns, cs, Applies(env, old(cells), cs, vs, |cs|))
              case None =>
                refused == Some(Refusal(env, old(cells), cs, vs, |cs|)) && cells == Spoilt(env, old(cells), cs, vs)
    {
      hide Applies, SetFirst, Refusal, Spoilt, Listed, Mapped;
      NoApplies(env, cells, cs, vs);
      NothingListed(applyFns, mapFns, cs);
      NothingSet(env, cells, cs, vs);
      refused := None;
      var i := 0;
      while i < |cs|
        invariant 0 <= i <= |cs| && SetFirst(env, old(cells), cs, vs, i) == Some(cells)
        invariant Listed(applyFns, Applies(env, old(cells), cs, vs, i))
        invariant Mapped(mapFns, cs, Applies(env, old(cells), cs, vs, i))
      {
        ghost var fs := Applies(env, old(cells), cs, vs, i);
        AppliesStep(env, old(cells), cs, vs, i + 1);
        SetFirstStep(env, old(cells), cs, vs, i + 1);
        ghost var now := cells;
        var res := InterfaceSet(env, cs[i], vs[i]);
        if res == 0 {
          RefusedHere(env, old(cells), cs, vs, i);
          return Some(i);
        }
        assert now[cs[i].cell := now[cs[i].cell]] == now;
        if res == 1 && cs[i].apply.Some? {
          AddApply(applyFns, mapFns, cs, i, fs);
        }
        i := i + 1;
      }
    }

    /** Runs the stored apply functions in order; stops at the first that fails. */
    method RunApplies(env: Env, applyFns: array<Option<string>>, ghost fs: seq<string>) returns (failed: Option<nat>)
      requires Listed(applyFns, fs)
      modifies this`effects
      ensures failed == FirstFailure(env, cells, fs)
      ensures effects == ApplyFirst(env, old(effects), cells, fs, if failed.Some? then failed.value + 1 else |fs|)
    {
      failed := None;
      var i := 0;
      while i < applyFns.Length && applyFns[i].Some?
        invariant 0 <= i <= |fs| && effects == ApplyFirst(env, old(effects), cells, fs, i)
        invariant forall j :: 0 <= j < i ==> env.applyOk(fs[j], cells)
      {
        var ok := Apply(env, applyFns[i].value);
        if !ok {
          return Some(i);
        }
        i := i + 1;
      }
      assert i == |fs|;
    }

    /** The part of the command after the options have been found: back up, set, apply, and roll back on any failure. */
    method SetAndApply(env: Env, cs: seq<Config>, vs: seq<string>) returns (reply: Reply)
      requires |cs| == |vs| && HaveCells(cells, cs)
      modifies this`cells, this`effects
      ensures reply == Okay <==> Accepted(env, old(cells), cs, vs)
      ensures reply == Okay ==>
        var fs := Applies(env, old(cells), cs, vs, |cs|);
        Some(cells) == SetFirst(env, old(cells), cs, vs, |cs|) && effects == ApplyFirst(env, old(effects), cells, fs, |fs|)
      ensures reply != Okay ==> (cells, effects) == RolledBack(env, old(cells), old(effects), cs, vs)
      ensures match SetFirst(env, old(cells), cs, vs, |cs|)
              case None => reply == Failed(cs[Refusal(env, old(cells), cs, vs, |cs|)].name)
              case Some(m) => reply != Okay ==> exists i :: 0 <= i < |cs| && BlamedForApply(env, cs[i], m, reply)
    {
      hide SetFirst, Applies, Listed, Mapped, Refusal, Spoilt, RestoreFirst, ApplyFirst, OldTexts, FirstFailure;
      var oldTexts := OldTexts(env, cells, cs);
      var applyFns, mapFns := new Option<string>[|cs|](_ => None), new nat[|cs|](_ => 0);
      var refused := SetAll(env, cs, vs, applyFns, mapFns);
      if refused.Some? {
        RestoreCells(env, cs, oldTexts, refused.value + 1);
        return Failed(cs[refused.value].name);
      }
      ghost var fs := Applies(env, old(cells), cs, vs, |cs|);
      reply := ApplyNew(env, cs, oldTexts, applyFns, mapFns, fs);
      if reply != Okay {
        ghost var j := FirstFailure(env, SetFirst(env, old(cells), cs, vs, |cs|).value, fs).value;
        ghost var i :| 0 <= i < |cs| && cs[i].apply == Some(fs[j]) && reply.name == cs[i].name;
        assert BlamedForApply(env, cs[i], SetFirst(env, old(cells), cs, vs, |cs|).value, reply);
      }
    }

    /** The reply names an option whose apply function fails on the new cells. */
    static ghost predicate BlamedForApply(env: Env, c: Config, m: Cells, reply: Reply) {
      c.apply.Some? && !env.applyOk(c.apply.value, m) && reply == Failed(c.name)
    }

    /** Puts the new cells into effect, or restores the old cells and applies them again. */
    method ApplyNew(env: Env, cs: seq<Config>, oldTexts: seq<string>, applyFns: array<Option<string>>, mapFns: array<nat>,
                    ghost fs: seq<string>)
      returns (reply: Reply)
      requires Listed(applyFns, fs) && Mapped(mapFns, cs, fs) && |cs| == |oldTexts| && HaveCells(cells, cs)
      modifies this`cells, this`effects
      ensures match FirstFailure(env, old(cells), fs)
              case None =>
                reply == Okay && cells == old(cells) && effects == ApplyFirst(env, old(effects), cells, fs, |fs|)
              case Some(j) =>
                && reply.Failed? && (exists i :: 0 <= i < |cs| && cs[i].apply == Some(fs[j]) && reply.name == cs[i].name)
                && cells == RestoreFirst(env, old(cells), cs, oldTexts, |cs|)
                && effects == ApplyFirst(env, ApplyFirst(env, old(effects), old(cells), fs, j + 1), cells, fs, |fs|)
    {
      hide Listed, RestoreFirst, ApplyFirst;
      var failed := RunApplies(env, applyFns, fs);
      if failed.None? {
        return Okay;
      }
      RestoreCells(env, cs, oldTexts, |cs|);
      ApplyAll(env, applyFns, fs);
      reply := Failed(cs[mapFns[failed.value]].name);
    }

    /** Every option has a value. */
    ghost predicate Complete(env: Env)
      reads this
    {
      forall name :: name in env.table ==> env.table[name].cell in cells
    }

    /**
     * The command. It succeeds exactly when every argument is acceptable, every option takes its value and every apply
     * function concerned succeeds on the new configuration. Then the configuration is the new one and those effects
     * are up to date; otherwise it is what the roll-back makes of it. From a settled configuration that is the old one,
     * and the configuration stays settled either way.
     */
    method ConfigSet(env: Env, args: seq<(string, string)>) returns (reply: Reply)
      requires Complete(env)
      modifies this`cells, this`effects
      ensures reply == Okay <==> Succeeds(env, old(cells), args)
      ensures reply == Okay ==>
        var cs, vs := Find(env, args, |args|, loading, allowProtected).value, Values(args);
        var fs := Applies(env, old(cells), cs, vs, |cs|);
        Some(cells) == SetFirst(env, old(cells), cs, vs, |cs|) && effects == ApplyFirst(env, old(effects), cells, fs, |fs|)
      ensures reply != Okay ==>
        match Find(env, args, |args|, loading, allowProtected)
        case Err(e) => reply == e && (cells, effects) == old((cells, effects))
        case Ok(cs) => HaveCells(old(cells), cs) && (cells, effects) == RolledBack(env, old(cells), old(effects), cs, Values(args))
      ensures old(Settled(env, cells, effects)) && reply != Okay ==> (cells, effects) == old((cells, effects))
      ensures old(Settled(env, cells, effects)) && WellBehaved(env) ==> Settled(env, cells, effects)
      ensures reply == Okay ==> NewConfiguration(env, old(cells), old(effects), args)
      ensures reply != Okay && Find(env, args, |args|, loading, allowProtected).Ok? ==>
        AllKnown(env, args) && exists i: nat :: i < |args| && Blamed(env, old(cells), args, i, reply)
    {
      hide SetFirst, Applies, Find, Fine, Distinct, ApplyFirst, Settled, WellBehaved, RolledBack, Accepted;
      hide Server.NewConfiguration, Server.Blamed, Refusal;
      var found := FindConfigs(env, args);
      if found.Err? {
        return found.error;
      }
      FoundAreFine(env, args, |args|, loading, allowProtected);
      ghost var cs, vs := found.value, Values(args);
      forall i | 0 <= i < |cs| ensures InTable(env, cs[i]) {
        assert args[i].0 in env.table;
      }
      reply := SetAndApply(env, found.value, Values(args));
      if reply == Okay {
        TheNewConfiguration(env, old(cells), old(effects), cs, args);
      } else {
        TheBlame(env, old(cells), cs, args, reply);
      }
      if old(Settled(env, cells, effects)) {
        if reply != Okay {
          SettledRollsBack(env, old(cells), old(effects), cs, vs);
        } else if WellBehaved(env) {
          StaysSettled(env, old(cells), old(effects), cs, vs);
        }
      }
    }

    /**
     * Every cell holds what the texts given for it make of it, one after the other; the apply functions of options that
     * took a new value have succeeded on this configuration, and no other effect has changed.
     */
    ghost predicate NewConfiguration(env: Env, before: Cells, was: Effects, args: seq<(string, string)>)
      reads this
    {
      && AllKnown(env, args) && cells.Keys == before.Keys
      && (forall i :: 0 <= i < |args| ==> Named(env, args, i).cell in before)
      && (forall k :: k in before ==> CellAfter(env, args, |args|, k, before[k]) == Some(cells[k]))
      && forall f ::
        if CalledFor(env, before, args, f) then
          f in effects && env.applyOk(f, cells) && effects[f] == env.effect(f, cells)
        else (f in effects <==> f in was) && (f in effects ==> effects[f] == was[f])
    }

    /** The reply names the option that refused its own text, or one whose apply function fails on the new cells. */
    static ghost predicate Blamed(env: Env, before: Cells, args: seq<(string, string)>, i: nat, reply: Reply)
      requires AllKnown(env, args) && i < |args|
    {
      var c := Named(env, args, i);
      && c.cell in before && reply == Failed(c.name)
      && ((exists left :: Meets(env, before, args, i, Refused(left))) ||
        exists m :: FailsToApply(env, before, args, c, m))
    }

    static ghost predicate FailsToApply(env: Env, before: Cells, args: seq<(string, string)>, c: Config, m: Cells)
      requires AllKnown(env, args)
    {
      && m.Keys == before.Keys && (forall k :: k in before ==> CellAfter(env, args, |args|, k, before[k]) == Some(m[k]))
      && c.apply.Some? && !env.applyOk(c.apply.value, m)
    }

    lemma TheNewConfiguration(env: Env, before: Cells, was: Effects, cs: seq<Config>, args: seq<(string, string)>)
      requires AreNamed(env, args, cs, before) && Accepted(env, before, cs, Values(args))
      requires Some(cells) == SetFirst(env, before, cs, Values(args), |cs|)
      requires var fs := Applies(env, before, cs, Values(args), |cs|); effects == ApplyFirst(env, was, cells, fs, |fs|)
      ensures NewConfiguration(env, before, was, args)
    {
      hide SetFirst, Applies, ApplyFirst, CellAfter, CalledFor;
      SetByArgument(env, before, cs, args, |args|);
      var fs := Applies(env, before, cs, Values(args), |cs|);
      assert fs[..|fs|] == fs;
      assert forall i :: 0 <= i < |args| ==> cs[i].cell in before;
      forall f
        ensures if CalledFor(env, before, args, f) then
            f in effects && env.applyOk(f, cells) && effects[f] == env.effect(f, cells)
          else (f in effects <==> f in was) && (f in effects ==> effects[f] == was[f])
      {
        AppliedAreCalledFor(env, before, cs, args, f);
        AppliedEffect(env, was, cells, fs, |fs|, f);
      }
    }

    lemma TheBlame(env: Env, before: Cells, cs: seq<Config>, args: seq<(string, string)>, reply: Reply)
      requires AreNamed(env, args, cs, before)
      requires match SetFirst(env, before, cs, Values(args), |cs|)
               case None => reply == Failed(cs[Refusal(env, before, cs, Values(args), |cs|)].name)
               case Some(m) => exists i :: 0 <= i < |cs| && BlamedForApply(env, cs[i], m, reply)
      ensures exists i: nat :: i < |args| && Blamed(env, before, args, i, reply)
    {
      hide SetFirst, Refusal, CellAfter, Meets;
      var set_ := SetFirst(env, before, cs, Values(args), |cs|);
      if set_.None? {
        RefusedOwnText(env, before, cs, args);
        assert Blamed(env, before, args, Refusal(env, before, cs, Values(args), |cs|), reply);
      } else {
        SetByArgument(env, before, cs, args, |args|);
        var i :| 0 <= i < |cs| && BlamedForApply(env, cs[i], set_.value, reply);
        assert FailsToApply(env, before, args, cs[i], set_.value);
        assert Blamed(env, before, args, i, reply);
      }
    }

    ghost predicate Succeeds(env: Env, before: Cells, args: seq<(string, string)>) {
      var found := Find(env, args, |args|, loading, allowProtected);
      found.Ok? && HaveCells(before, found.value) && Accepted(env, before, found.value, Values(args))
    }
  }

  /**
   * Stores an apply function unless it is there already. At most i are stored before the i-th option, so the search
   * always meets a free place inside the list.
   */
  method AddApply(applyFns: array<Option<string>>, mapFns: array<nat>, cs: seq<Config>, i: nat, ghost fs: seq<string>)
    requires i < |cs| == applyFns.Length == mapFns.Length && cs[i].apply.Some?
    requires Listed(applyFns, fs) && Mapped(mapFns, cs, fs) && |fs| <= i
    modifies applyFns, mapFns
    ensures Listed(applyFns, if cs[i].apply.value in fs then fs else fs + [cs[i].apply.value])
    ensures Mapped(mapFns, cs, if cs[i].apply.value in fs then fs else fs + [cs[i].apply.value])
  {
    hide Listed, Mapped;
    var j, found := FindApply(applyFns, cs[i].apply.value, i, fs);
    if !found {
      StoreApply(applyFns, j, cs[i].apply.value, fs);
      StoreIndex(mapFns, j, cs, i, fs);
    }
  }

  method StoreApply(applyFns: array<Option<string>>, j: nat, f: string, ghost fs: seq<string>)
    requires Listed(applyFns, fs) && j == |fs| < applyFns.Length
    modifies applyFns
    ensures Listed(applyFns, fs + [f])
  {
    applyFns[j] := Some(f);
  }

  method StoreIndex(mapFns: array<nat>, j: nat, cs: seq<Config>, i: nat, ghost fs: seq<string>)
    requires Mapped(mapFns, cs, fs) && j == |fs| < mapFns.Length && i < |cs| && cs[i].apply.Some?
    modifies mapFns
    ensures Mapped(mapFns, cs, fs + [cs[i].apply.value])
  {
    mapFns[j] := i;
  }

  /** The search for a stored apply function, or for the first free place. */
  method FindApply(applyFns: array<Option<string>>, f: string, i: nat, ghost fs: seq<string>) returns (j: nat, found: bool)
    requires i < applyFns.Length && Listed(applyFns, fs) && |fs| <= i
    ensures found <==> f in fs
    ensures !found ==> j == |fs|
  {
    j, found := 0, false;
    while applyFns[j].Some? && j <= i
      invariant 0 <= j <= |fs|
      invariant forall k :: 0 <= k < j ==> fs[k] != f
      decreases i + 1 - j
    {
      if applyFns[j] == Some(f) {
        found := true;
        return;
      }
      j := j + 1;
    }
  }

  /** The list holds exactly these functions, in this order, before its first free place. */
  ghost predicate Listed(applyFns: array<Option<string>>, fs: seq<string>)
    reads applyFns
  {
    && |fs| <= applyFns.Length
    && (forall j :: 0 <= j < |fs| ==> applyFns[j] == Some(fs[j]))
    && forall j :: |fs| <= j < applyFns.Length ==> applyFns[j] == None
  }

  /** Beside each stored function, the index of the option that brought it in, for the error message. */
  ghost predicate Mapped(mapFns: array<nat>, cs: seq<Config>, fs: seq<string>)
    reads mapFns
  {
    |fs| <= mapFns.Length &&
    forall j :: 0 <= j < |fs| ==> mapFns[j] < |cs| && cs[mapFns[j]].apply == Some(fs[j])
  }

  lemma {:induction false} NothingListed(applyFns: array<Option<string>>, mapFns: array<nat>, cs: seq<Config>)
    requires forall j :: 0 <= j < applyFns.Length ==> applyFns[j] == None
    ensures Listed(applyFns, []) && Mapped(mapFns, cs, [])
  {
  }

  lemma AppliesStep(env: Env, cells: Cells, cs: seq<Config>, vs: seq<string>, n: nat)
    requires 0 < n <= |cs| == |vs| && HaveCells(cells, cs) && SetFirst(env, cells, cs, vs, n - 1).Some?
    ensures SetFirst(env, cells, cs, vs, n).Some? ==>
      var fs, m, c := Applies(env, cells, cs, vs, n - 1), SetFirst(env, cells, cs, vs, n - 1).value, cs[n - 1];
      Applies(env, cells, cs, vs, n) ==
      if env.set_(c, m[c.cell], vs[n - 1]).Changed? && c.apply.Some? && c.apply.value !in fs then fs + [c.apply.value]
      else fs
  {
  }

  lemma {:induction false} NothingSet(env: Env, cells: Cells, cs: seq<Config>, vs: seq<string>)
    requires |cs| == |vs| && HaveCells(cells, cs)
    ensures SetFirst(env, cells, cs, vs, 0) == Some(cells)
  {
  }

  lemma SetFirstStep(env: Env, cells: Cells, cs: seq<Config>, vs: seq<string>, n: nat)
    requires 0 < n <= |cs| == |vs| && HaveCells(cells, cs) && SetFirst(env, cells, cs, vs, n - 1).Some?
    ensures var m, c := SetFirst(env, cells, cs, vs, n - 1).value, cs[n - 1];
            SetFirst(env, cells, cs, vs, n) ==
            match env.set_(c, m[c.cell], vs[n - 1])
            case Refused(_) => None
            case Changed(x) => Some(m[c.cell := x])
            case Same => Some(m)
  {
  }

  /** The option refused by SetAll is the one SetFirst stops at. */
  lemma {:induction false} RefusedHere(env: Env, cells: Cells, cs: seq<Config>, vs: seq<string>, i: nat)
    requires i < |cs| == |vs| && HaveCells(cells, cs) && SetFirst(env, cells, cs, vs, i).Some?
    requires env.set_(cs[i], SetFirst(env, cells, cs, vs, i).value[cs[i].cell], vs[i]).Refused?
    ensures SetFirst(env, cells, cs, vs, |cs|) == None && Refusal(env, cells, cs, vs, |cs|) == i
    ensures var m, c := SetFirst(env, cells, cs, vs, i).value, cs[i];
      Spoilt(env, cells, cs, vs) == m[c.cell := AfterSet(env, c, m[c.cell], vs[i])]
  {
    SetFirstStep(env, cells, cs, vs, i + 1);
    RefusedForGood(env, cells, cs, vs, i + 1, i);
  }

  lemma {:induction false} RefusedForGood(env: Env, cells: Cells, cs: seq<Config>, vs: seq<string>, n: nat, i: nat)
    requires n <= |cs| == |vs| && HaveCells(cells, cs) && SetFirst(env, cells, cs, vs, n) == None
    requires Refusal(env, cells, cs, vs, n) == i
    ensures SetFirst(env, cells, cs, vs, |cs|) == None && Refusal(env, cells, cs, vs, |cs|) == i
    decreases |cs| - n
  {
    if n < |cs| {
      RefusedForGood(env, cells, cs, vs, n + 1, i);
    }
  }
}
