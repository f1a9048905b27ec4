/** binfmt/script.c and binfmt/binfmt_loadmodule.c: what loading a name answers, as the
    code goes about it and as a record of everything that was tried. */
module LoadSteps {
  import opened ArgList
  import opened Shebang
  import opened Wrappers

  const ENOENT: int := 2
  const ENOEXEC: int := 8
  const EACCES: int := 13
  const ELOOP: int := 40

  /** SCRIPT_DEPTH_MAX */
  const DEPTH_MAX: nat := 4

  type Code = x: int | x <= 0
  type Failure = x: int | x < 0 witness -1
  type Head = s: string | |s| < HEADER_MAX

  /** Opening, checking and reading the first bytes of a file. */
  datatype Contents = Refused(error: Failure) | Read(head: Head)

  /** A registered format: scripts, or one that loads a file itself. */
  datatype Format = Script | Other(load: CString -> Code, unload: Option<nat>)

  /** What surrounds the loader: files, formats in the order they are tried, the places
      PATH gives for a bare name, the scheduler's answer and which allocations succeed. */
  datatype World = World(file: CString -> Contents, formats: seq<Format>, path: CString -> seq<CString>,
                         sched: Code, memory: nat -> bool)

  /** The fields of struct binary_s that loading changes, the list by its contents,
      and the number of allocations so far. */
  datatype Bin = Bin(args: Option<seq<CString>>, depth: nat, unload: Option<nat>, mallocs: nat)

  datatype Outcome = Outcome(ret: Code, bin: Bin)

  /** A failure leaves everything but the allocator as it was, and the depth is always
      what it was. */
  ghost predicate Restores(b: Bin, o: Outcome)
  {
    && o.bin.depth == b.depth
    && (o.ret != 0 ==> o.bin == b.(mallocs := o.bin.mallocs))
  }

  /** How many more scripts may follow. */
  function Left(depth: nat): (n: nat)
  {
    if depth < DEPTH_MAX then DEPTH_MAX - depth else 0
  }

  predicate Magic(head: string)
  {
    |head| >= 2 && head[0] == '#' && head[1] == '!'
  }

  datatype Order = Order(interp: CString, arg: Option<CString>)

  /** The interpreter and argument that the first line names, if it does. */
  ghost function Ordered(head: string): (o: Option<Order>)
  {
    if exists o: Order :: Names(LineAt(head, 2), o.interp, o.arg) then
      var o: Order :| Names(LineAt(head, 2), o.interp, o.arg);
      Some(o)
    else None
  }

  predicate Bare(name: CString)
  {
    '/' !in name
  }

  /** load_module */
  ghost function Loaded(w: World, b: Bin, name: CString): (o: Outcome)
    ensures Restores(b, o)
    decreases Left(b.depth), 3, 0
  {
    if w.sched < 0 then Outcome(w.sched, b)
    else if name == [] then Outcome(-ENOENT, b)
    else if Bare(name) then Searched(w, b, w.path(name), -ENOENT)
    else Tried(w, b, name, w.formats, -ENOENT)
  }

  /** The loop over PATH. */
  ghost function Searched(w: World, b: Bin, paths: seq<CString>, ret: Failure): (o: Outcome)
    ensures Restores(b, o)
    decreases Left(b.depth), 2, |paths|
  {
    if paths == [] then Outcome(ret, b)
    else
      var o := Tried(w, b, paths[0], w.formats, -ENOENT);
      if o.ret == 0 then o else Searched(w, o.bin, paths[1..], o.ret)
  }

  /** load_absmodule: the loop over the formats. */
  ghost function Tried(w: World, b: Bin, file: CString, formats: seq<Format>, ret: Failure): (o: Outcome)
    ensures Restores(b, o)
    decreases Left(b.depth), 1, |formats|
  {
    if formats == [] then Outcome(ret, b)
    else
      var o := Asked(w, b, file, formats[0]);
      if o.ret == 0 then o.(bin := Unloading(o.bin, formats[0]))
      else if o.ret == -EACCES then o
      else Tried(w, o.bin, file, formats[1..], o.ret)
  }

  function Unloading(b: Bin, f: Format): (n: Bin)
  {
    if f.Other? && f.unload.Some? then b.(unload := f.unload) else b
  }

  ghost function Asked(w: World, b: Bin, file: CString, f: Format): (o: Outcome)
    ensures Restores(b, o)
    decreases Left(b.depth), 0, 1
  {
    match f
    case Other(load, _) => Outcome(load(file), b)
    case Script => Interpreted(w, b, file)
  }

  /** script_loadbinary */
  ghost function Interpreted(w: World, b: Bin, file: CString): (o: Outcome)
    ensures Restores(b, o)
    decreases Left(b.depth), 0, 0
  {
    match w.file(file)
    case Refused(e) => Outcome(e, b)
    case Read(head) =>
      if !Magic(head) then Outcome(-ENOEXEC, b)
      else if b.depth >= DEPTH_MAX then Outcome(-ELOOP, b)
      else if Ordered(head).None? then Outcome(-ENOEXEC, b)
      else if !w.memory(b.mallocs) then Outcome(-ENOMEM, b.(mallocs := b.mallocs + 1))
      else
        var order := Ordered(head).value;
        var list := Composed(order.interp, order.arg, file, b.args);
        var o := Loaded(w, b.(args := Some(list), depth := b.depth + 1, mallocs := b.mallocs + 1), order.interp);
        if o.ret < 0 then o.(bin := o.bin.(args := b.args, depth := b.depth))
        else o.(bin := o.bin.(depth := b.depth))
  }

  /** One script that was followed: the file, and what its first line names. */
  datatype Link = Link(file: CString, interp: CString, arg: Option<CString>)

  /** The argument list after the scripts of a chain. */
  function Grown(chain: seq<Link>, args: Option<seq<CString>>): (r: Option<seq<CString>>)
    decreases |chain|
  {
    if chain == [] then args
    else Grown(chain[1..], Some(Composed(chain[0].interp, chain[0].arg, chain[0].file, args)))
  }

  /** Something that was tried: the allocations before and after it, its answer and, when
      it succeeded, the scripts it went through and the unload function it left. */
  datatype Step = Step(from: nat, ret: Code, to: nat, links: seq<Link>, unload: Option<nat>)

  /** Up to n things tried one after the other, until one gives an answer that ends the
      search. The last answer counts, or none if nothing was tried. */
  ghost predicate InOrder(steps: seq<Step>, n: nat, ends: set<int>, none: Failure, all: Step)
  {
    && |steps| <= n
    && (forall i, j :: 0 <= i && j == i + 1 < |steps| ==> steps[i].to == steps[j].from)
    && (forall i :: 0 <= i < |steps| - 1 ==> steps[i].ret !in ends)
    && (|steps| < n ==> steps != [] && steps[|steps| - 1].ret in ends)
    && (steps == [] ==> all == Step(all.from, none, all.from, [], None))
    && (steps != [] ==> all == steps[|steps| - 1].(from := steps[0].from))
  }

  /** The files a name may stand for. */
  function Places(w: World, name: CString): (s: seq<CString>)
  {
    if '/' in name then [name] else w.path(name)
  }

  /** Loading a name goes as s says: the places are tried until one answers 0. */
  ghost predicate Answers(w: World, depth: nat, name: CString, s: Step)
    decreases Left(depth), 3
  {
    if w.sched < 0 || name == [] then
      s == Step(s.from, if w.sched < 0 then w.sched else -2, s.from, [], None)
    else
      exists steps: seq<Step> ::
        && InOrder(steps, |Places(w, name)|, {0}, -2, s)
        && forall i :: 0 <= i < |steps| ==> FileAnswers(w, depth, Places(w, name)[i], steps[i])
  }

  /** The formats are tried until one answers 0 or denies access. */
  ghost predicate FileAnswers(w: World, depth: nat, file: CString, s: Step)
    decreases Left(depth), 2
  {
    exists steps: seq<Step> ::
      && InOrder(steps, |w.formats|, {0, -13}, -2, s)
      && forall i :: 0 <= i < |steps| ==> FormatAnswers(w, depth, file, w.formats[i], steps[i])
  }

  ghost predicate FormatAnswers(w: World, depth: nat, file: CString, f: Format, s: Step)
    decreases Left(depth), 1
  {
    match f
    case Other(load, unload) =>
      s == Step(s.from, load(file), s.from, [], if load(file) == 0 then unload else None)
    case Script => ScriptAnswers(w, depth, file, s)
  }

  /** A script's interpreter is loaded in its place, at most four deep. */
  ghost predicate ScriptAnswers(w: World, depth: nat, file: CString, s: Step)
    decreases Left(depth), 0
  {
    match w.file(file)
    case Refused(e) => s == Step(s.from, e, s.from, [], None)
    case Read(head) =>
      if !("#!" <= head) then s == Step(s.from, -8, s.from, [], None)
      else if depth >= 4 then s == Step(s.from, -40, s.from, [], None)
      else if Spaces(LineAt(head, 2)) then s == Step(s.from, -8, s.from, [], None)
      else if !w.memory(s.from) then s == Step(s.from, -12, s.from + 1, [], None)
      else
        exists o: Order, inner: Step ::
          && Names(LineAt(head, 2), o.interp, o.arg) && Answers(w, depth + 1, o.interp, inner)
          && inner.from == s.from + 1 && s == Within(Link(file, o.interp, o.arg), inner, s.from)
  }

  /** What a script's interpreter did, as a step of the script. */
  function Within(l: Link, inner: Step, from: nat): (s: Step)
  {
    inner.(from := from, links := if inner.ret == 0 then [l] + inner.links else [])
  }

  /** The outcome is what the step says. */
  ghost predicate Explains(s: Step, b: Bin, o: Outcome)
  {
    && s.from == b.mallocs && s.ret == o.ret
    && o.bin == Bin(Grown(s.links, b.args), b.depth, if s.unload.Some? then s.unload else b.unload, s.to)
  }

  /** A step that failed followed nothing. */
  ghost predicate Plain(s: Step)
  {
    s.ret != 0 ==> s.links == [] && s.unload == None
  }

  lemma InOrderNext(first: Step, steps: seq<Step>, n: nat, ends: set<int>, none: Failure, all: Step)
    requires first.ret !in ends && first.ret < 0 && Plain(first)
    requires InOrder(steps, n, ends, first.ret, all) && all.from == first.to
    requires steps != [] ==> steps[0].from == first.to
    ensures InOrder([first] + steps, n + 1, ends, none, all.(from := first.from))
  {
    var more := [first] + steps;
    assert forall i :: 0 < i < |more| ==> more[i] == steps[i - 1];
  }

  /** Every load goes as some step says, and its outcome is what that step says. */
  lemma {:induction false} LoadedAnswers(w: World, b: Bin, name: CString) returns (s: Step)
    ensures Answers(w, b.depth, name, s) && Explains(s, b, Loaded(w, b, name)) && Plain(s)
    decreases Left(b.depth), 3, 0
  {
    hide Searched, Tried, InOrder, FileAnswers;
    if w.sched < 0 || name == [] {
      s := Step(b.mallocs, if w.sched < 0 then w.sched else -2, b.mallocs, [], None);
    } else {
      var steps;
      steps, s := SearchedAnswers(w, b, Places(w, name), -2);
      if !Bare(name) { SearchedOne(w, b, name); }
    }
  }

  lemma SearchedOne(w: World, b: Bin, file: CString)
    ensures Searched(w, b, [file], -2) == Tried(w, b, file, w.formats, -2)
  {
    hide Tried;
    var o := Tried(w, b, file, w.formats, -2);
    assert [file][1..] == [];
    assert Searched(w, o.bin, [], if o.ret < 0 then o.ret else -2).bin == o.bin;
  }

  lemma {:induction false} SearchedAnswers(w: World, b: Bin, paths: seq<CString>, ret: Failure)
    returns (steps: seq<Step>, s: Step)
    ensures InOrder(steps, |paths|, {0}, ret, s) && Plain(s)
    ensures forall i :: 0 <= i < |steps| ==> FileAnswers(w, b.depth, paths[i], steps[i])
    ensures Explains(s, b, Searched(w, b, paths, ret))
    decreases Left(b.depth), 2, |paths|
  {
    hide Tried, FileAnswers;
    if paths == [] {
      steps, s := [], Step(b.mallocs, ret, b.mallocs, [], None);
    } else {
      var o := Tried(w, b, paths[0], w.formats, -2);
      var formats, first := TriedAnswers(w, b, paths[0], w.formats, -2);
      assert FileAnswers(w, b.depth, paths[0], first) by { FileAnswered(w, b.depth, paths[0], formats, first); }
      if o.ret == 0 {
        steps, s := [first], first;
      } else {
        var rest, all := SearchedAnswers(w, o.bin, paths[1..], o.ret);
        InOrderNext(first, rest, |paths| - 1, {0}, ret, all);
        steps, s := [first] + rest, all.(from := first.from);
      }
    }
  }

  lemma FileAnswered(w: World, depth: nat, file: CString, steps: seq<Step>, s: Step)
    requires InOrder(steps, |w.formats|, {0, -13}, -2, s)
    requires forall i :: 0 <= i < |steps| ==> FormatAnswers(w, depth, file, w.formats[i], steps[i])
    ensures FileAnswers(w, depth, file, s)
  {
    hide InOrder, FormatAnswers;
  }

  lemma {:induction false} TriedAnswers(w: World, b: Bin, file: CString, formats: seq<Format>, ret: Failure)
    returns (steps: seq<Step>, s: Step)
    ensures InOrder(steps, |formats|, {0, -13}, ret, s) && Plain(s)
    ensures forall i :: 0 <= i < |steps| ==> FormatAnswers(w, b.depth, file, formats[i], steps[i])
    ensures Explains(s, b, Tried(w, b, file, formats, ret))
    decreases Left(b.depth), 1, |formats|
  {
    hide FormatAnswers, Asked;
    if formats == [] {
      steps, s := [], Step(b.mallocs, ret, b.mallocs, [], None);
    } else {
      var o := Asked(w, b, file, formats[0]);
      var first := AskedAnswers(w, b, file, formats[0]);
      if o.ret == 0 || o.ret == -13 {
        steps, s := [first], first;
      } else {
        var rest, all := TriedAnswers(w, o.bin, file, formats[1..], o.ret);
        InOrderNext(first, rest, |formats| - 1, {0, -13}, ret, all);
        steps, s := [first] + rest, all.(from := first.from);
      }
    }
  }

  lemma {:induction false} AskedAnswers(w: World, b: Bin, file: CString, f: Format) returns (s: Step)
    ensures FormatAnswers(w, b.depth, file, f, s) && Plain(s)
    ensures var o := Asked(w, b, file, f);
            Explains(s, b, if o.ret == 0 then o.(bin := Unloading(o.bin, f)) else o)
    decreases Left(b.depth), 0, 1
  {
    hide Interpreted, ScriptAnswers;
    match f
    case Other(load, unload) =>
      s := Step(b.mallocs, load(file), b.mallocs, [], if load(file) == 0 then unload else None);
    case Script =>
      s := InterpretedAnswers(w, b, file);
  }

  lemma {:induction false} InterpretedAnswers(w: World, b: Bin, file: CString) returns (s: Step)
    ensures ScriptAnswers(w, b.depth, file, s) && Plain(s)
    ensures Explains(s, b, Interpreted(w, b, file))
    decreases Left(b.depth), 0, 0
  {
    hide Loaded, Names, LineAt, Composed, Answers, Spaces, Ordered;
    s := Step(b.mallocs, Interpreted(w, b, file).ret, Interpreted(w, b, file).bin.mallocs, [], None);
    if w.file(file).Read? && Magic(w.file(file).head) && b.depth < 4 {
      var head := w.file(file).head;
      OrderedSpaces(head);
      if Ordered(head).Some? && w.memory(b.mallocs) {
        var o := Ordered(head).value;
        var list := Composed(o.interp, o.arg, file, b.args);
        var inner := LoadedAnswers(w, b.(args := Some(list), depth := b.depth + 1, mallocs := b.mallocs + 1), o.interp);
        var l := Link(file, o.interp, o.arg);
        s := Within(l, inner, b.mallocs);
        assert ([l] + inner.links)[1..] == inner.links;
      }
    }
  }

  /** A line names an interpreter unless it is blank. */
  lemma OrderedSpaces(head: string)
    ensures Ordered(head).None? <==> Spaces(LineAt(head, 2))
    ensures Ordered(head).Some? ==> Names(LineAt(head, 2), Ordered(head).value.interp, Ordered(head).value.arg)
  {
    hide Names, Spaces, LineAt;
    var line := LineAt(head, 2);
    if Spaces(line) {
      forall o: Order ensures !Names(line, o.interp, o.arg) {
        if Names(line, o.interp, o.arg) { NamesNone(line, o.interp, o.arg); }
      }
    } else {
      var interp, arg := NamesSome(line);
      var o := Order(interp, arg);
      assert Names(line, o.interp, o.arg);
    }
  }

  /** Whatever was tried at a point, there is only one way to go on. */
  lemma {:induction false} InOrderOne(steps: seq<Step>, all: Step, steps': seq<Step>, all': Step,
                                      n: nat, ends: set<int>, none: Failure)
    requires InOrder(steps, n, ends, none, all) && InOrder(steps', n, ends, none, all') && all.from == all'.from
    requires forall i :: 0 <= i < |steps| && i < |steps'| && steps[i].from == steps'[i].from ==> steps[i] == steps'[i]
    ensures all == all'
  {
    forall i | 0 <= i < |steps| && i < |steps'| ensures steps[i] == steps'[i] {
      SameStep(steps, all, steps', all', n, ends, none, i);
    }
  }

  lemma {:induction false} SameStep(steps: seq<Step>, all: Step, steps': seq<Step>, all': Step,
                                    n: nat, ends: set<int>, none: Failure, i: nat)
    requires InOrder(steps, n, ends, none, all) && InOrder(steps', n, ends, none, all') && all.from == all'.from
    requires forall i :: 0 <= i < |steps| && i < |steps'| && steps[i].from == steps'[i].from ==> steps[i] == steps'[i]
    requires i < |steps| && i < |steps'|
    ensures steps[i] == steps'[i]
    decreases i
  {
    if i > 0 {
      SameStep(steps, all, steps', all', n, ends, none, i - 1);
      assert steps[i - 1].to == steps[i].from && steps'[i - 1].to == steps'[i].from;
    }
  }

  /** A load goes one way. */
  lemma {:induction false} AnswersOne(w: World, depth: nat, name: CString, s: Step, t: Step)
    requires Answers(w, depth, name, s) && Answers(w, depth, name, t) && s.from == t.from
    ensures s == t
    decreases Left(depth), 3
  {
    hide FileAnswers, Places;
    if !(w.sched < 0 || name == []) {
      var places := Places(w, name);
      var ss: seq<Step> :|
        && InOrder(ss, |places|, {0}, -2, s)
        && forall i :: 0 <= i < |ss| ==> FileAnswers(w, depth, places[i], ss[i]);
      var ts: seq<Step> :|
        && InOrder(ts, |places|, {0}, -2, t)
        && forall i :: 0 <= i < |ts| ==> FileAnswers(w, depth, places[i], ts[i]);
      forall i | 0 <= i < |ss| && i < |ts| && ss[i].from == ts[i].from ensures ss[i] == ts[i] {
        FileAnswersOne(w, depth, places[i], ss[i], ts[i]);
      }
      InOrderOne(ss, s, ts, t, |places|, {0}, -2);
    }
  }

  lemma {:induction false} FileAnswersOne(w: World, depth: nat, file: CString, s: Step, t: Step)
    requires FileAnswers(w, depth, file, s) && FileAnswers(w, depth, file, t) && s.from == t.from
    ensures s == t
    decreases Left(depth), 2
  {
    hide FormatAnswers;
    var ss: seq<Step> :|
      && InOrder(ss, |w.formats|, {0, -13}, -2, s)
      && forall i :: 0 <= i < |ss| ==> FormatAnswers(w, depth, file, w.formats[i], ss[i]);
    var ts: seq<Step> :|
      && InOrder(ts, |w.formats|, {0, -13}, -2, t)
      && forall i :: 0 <= i < |ts| ==> FormatAnswers(w, depth, file, w.formats[i], ts[i]);
    forall i | 0 <= i < |ss| && i < |ts| && ss[i].from == ts[i].from ensures ss[i] == ts[i] {
      FormatAnswersOne(w, depth, file, w.formats[i], ss[i], ts[i]);
    }
    InOrderOne(ss, s, ts, t, |w.formats|, {0, -13}, -2);
  }

  lemma {:induction false} FormatAnswersOne(w: World, depth: nat, file: CString, f: Format, s: Step, t: Step)
    requires FormatAnswers(w, depth, file, f, s) && FormatAnswers(w, depth, file, f, t) && s.from == t.from
    ensures s == t
    decreases Left(depth), 1
  {
    hide Names, LineAt, Spaces, Answers;
    if f.Script? && w.file(file).Read? {
      var line := LineAt(w.file(file).head, 2);
      if "#!" <= w.file(file).head && depth < 4 && !Spaces(line) && w.memory(s.from) {
        var o: Order, inner: Step :|
          && Names(line, o.interp, o.arg) && Answers(w, depth + 1, o.interp, inner)
          && inner.from == s.from + 1 && s == Within(Link(file, o.interp, o.arg), inner, s.from);
        var p: Order, other: Step :|
          && Names(line, p.interp, p.arg) && Answers(w, depth + 1, p.interp, other)
          && other.from == t.from + 1 && t == Within(Link(file, p.interp, p.arg), other, t.from);
        NamesOne(line, o.interp, o.arg, p.interp, p.arg);
        AnswersOne(w, depth + 1, o.interp, inner, other);
      }
    }
  }

  /** Loading a name does what the step says if the name's load goes that way: there is
      always one such step and only one. */
  lemma LoadedExactly(w: World, b: Bin, name: CString, s: Step)
    requires s.from == b.mallocs
    ensures Answers(w, b.depth, name, s) ==> Explains(s, b, Loaded(w, b, name))
    ensures exists t: Step :: t.from == b.mallocs && Answers(w, b.depth, name, t)
  {
    hide Answers, Loaded;
    var t := LoadedAnswers(w, b, name);
    if Answers(w, b.depth, name, s) {
      AnswersOne(w, b.depth, name, s, t);
    }
  }

  /** A search succeeds if and only if something it tried did, and then it is the last. */
  lemma InOrderZero(steps: seq<Step>, n: nat, ends: set<int>, none: Failure, all: Step)
    requires InOrder(steps, n, ends, none, all) && 0 in ends
    ensures all.ret == 0 <==> exists i :: 0 <= i < |steps| && steps[i].ret == 0
    ensures all.ret == 0 ==> steps[|steps| - 1].ret == 0
  {
  }
}
