/** binfmt/script.c and binfmt/binfmt_loadmodule.c: loading a program, where the
    program may be a script whose interpreter is loaded in its place. */
module ScriptLoader {
  import opened ArgList
  import opened LoadSteps
  import opened Shebang
  import opened Wrappers

  ghost predicate Says(w: World, l: Link)
  {
    && w.file(l.file).Read? && Magic(w.file(l.file).head)
    && Names(LineAt(w.file(l.file).head, 2), l.interp, l.arg)
  }

  /** A name leads through scripts to a file that another format loads. */
  ghost predicate Runs(w: World, name: CString, chain: seq<Link>)
    decreases |chain|
  {
    if chain == [] then
      exists file: CString, f: Format :: file in Places(w, name) && f in w.formats && f.Other? && f.load(file) == 0
    else
      && chain[0].file in Places(w, name) && Says(w, chain[0])
      && Runs(w, chain[0].interp, chain[1..])
  }

  /** What is known of a load that succeeds. */
  ghost predicate Reached(w: World, b: Bin, name: CString, o: Outcome, chain: seq<Link>)
  {
    && Runs(w, name, chain)
    && |chain| <= Left(b.depth)
    && o.bin.args == Grown(chain, b.args)
  }

  /** A load that succeeds went through at most as many scripts as were left, and every
      one of them is in the argument list. */
  lemma LoadedChain(w: World, b: Bin, name: CString) returns (chain: seq<Link>)
    requires Loaded(w, b, name).ret == 0
    ensures Reached(w, b, name, Loaded(w, b, name), chain)
  {
    hide Loaded, Answers, Runs, Grown;
    var s := LoadedAnswers(w, b, name);
    AnswersRun(w, b.depth, name, s);
    chain := s.links;
  }

  lemma {:induction false} AnswersRun(w: World, depth: nat, name: CString, s: Step)
    requires Answers(w, depth, name, s) && s.ret == 0
    ensures Runs(w, name, s.links) && |s.links| <= Left(depth)
    decreases Left(depth), 2
  {
    hide FileAnswers, Places, Runs;
    var steps: seq<Step> :|
      && InOrder(steps, |Places(w, name)|, {0}, -2, s)
      && forall i :: 0 <= i < |steps| ==> FileAnswers(w, depth, Places(w, name)[i], steps[i]);
    var n := |steps| - 1;
    FileRuns(w, depth, name, Places(w, name)[n], steps[n]);
  }

  lemma {:induction false} FileRuns(w: World, depth: nat, name: CString, file: CString, s: Step)
    requires FileAnswers(w, depth, file, s) && s.ret == 0 && file in Places(w, name)
    ensures Runs(w, name, s.links) && |s.links| <= Left(depth)
    decreases Left(depth), 1
  {
    hide Places, FormatAnswers, Runs;
    var steps: seq<Step> :|
      && InOrder(steps, |w.formats|, {0, -13}, -2, s)
      && forall i :: 0 <= i < |steps| ==> FormatAnswers(w, depth, file, w.formats[i], steps[i]);
    var n := |steps| - 1;
    FormatRuns(w, depth, name, file, w.formats[n], steps[n]);
  }

  lemma {:induction false} FormatRuns(w: World, depth: nat, name: CString, file: CString, f: Format, s: Step)
    requires FormatAnswers(w, depth, file, f, s) && s.ret == 0 && file in Places(w, name) && f in w.formats
    ensures Runs(w, name, s.links) && |s.links| <= Left(depth)
    decreases Left(depth), 0
  {
    hide Places, Answers, Names, LineAt, Spaces;
    if f.Script? {
      var line := LineAt(w.file(file).head, 2);
      var o: Order, inner: Step :|
        && Names(line, o.interp, o.arg) && Answers(w, depth + 1, o.interp, inner)
        && inner.from == s.from + 1 && s == Within(Link(file, o.interp, o.arg), inner, s.from);
      AnswersRun(w, depth + 1, o.interp, inner);
      assert s.links[1..] == inner.links;
    }
  }

  /** The argument of a script's interpreter, if any, and the script. */
  function Own(l: Link): (s: seq<CString>)
  {
    (if l.arg.None? then [] else [l.arg.value]) + [l.file]
  }

  /** Those of a whole chain, the last script first. */
  function Behind(chain: seq<Link>): (l: seq<CString>)
  {
    if chain == [] then [] else Own(chain[|chain| - 1]) + Behind(chain[..|chain| - 1])
  }

  function Rest(args: Option<seq<CString>>): (l: seq<CString>)
  {
    if args.None? || args.value == [] then [] else args.value[1..]
  }

  /** The last interpreter runs, each script follows the arguments of its interpreter,
      and what followed the first entry of the list before is still behind. */
  lemma {:induction false} GrownForm(chain: seq<Link>, args: Option<seq<CString>>)
    requires chain != []
    ensures Grown(chain, args) == Some([chain[|chain| - 1].interp] + Behind(chain) + Rest(args))
    decreases |chain|
  {
    hide Behind, Own;
    var first := chain[0];
    var list := Composed(first.interp, first.arg, first.file, args);
    ComposedRest(first, args);
    BehindFirst(chain);
    var i, m, own, r := chain[|chain| - 1].interp, Behind(chain[1..]), Own(first), Rest(args);
    assert [i] + m + (own + r) == [i] + (m + own) + r;
    if |chain| == 1 {
      assert chain[1..] == [];
      BehindNone();
      assert Grown(chain, args) == Grown([], Some(list)) == Some(list);
      assert [i] + m + (own + r) == [i] + (own + r);
    } else {
      GrownForm(chain[1..], Some(list));
    }
  }

  lemma BehindNone()
    ensures Behind([]) == []
  {
  }

  lemma ComposedRest(l: Link, args: Option<seq<CString>>)
    ensures Composed(l.interp, l.arg, l.file, args) == [l.interp] + (Own(l) + Rest(args))
  {
  }

  lemma {:induction false} BehindFirst(chain: seq<Link>)
    requires chain != []
    ensures Behind(chain) == Behind(chain[1..]) + Own(chain[0])
    decreases |chain|
  {
    hide Own;
    var init := chain[..|chain| - 1];
    if |chain| == 1 {
      assert chain[1..] == [] && init == [];
    } else {
      BehindFirst(init);
      assert init[1..] == chain[1..][..|chain| - 2];
    }
  }

  /** A script that is run with arguments: its interpreter gets its path and them. */
  lemma ScriptArguments(w: World, b: Bin, name: CString, argv: Option<seq<CString>>) returns (chain: seq<Link>)
    requires b.args.None? && Loaded(w, b, name).ret == 0
    ensures Runs(w, name, chain) && |chain| <= Left(b.depth)
    ensures Started(Loaded(w, b, name).bin.args, argv)
         == if chain == [] then (if argv.None? then [] else argv.value)
            else [chain[|chain| - 1].interp] + Behind(chain) + Rest(argv)
  {
    hide Loaded, Runs, Behind;
    chain := LoadedChain(w, b, name);
    if chain != [] { GrownForm(chain, b.args); }
  }

  /** Lists are replaced, not leaked: either nothing changed hands, or the old list is
      gone and one new list took its place. */
  ghost predicate Replaced(l: map<nat, Block>, a: Option<nat>, l': map<nat, Block>, a': Option<nat>)
  {
    || (l' == l && a' == a)
    || (a'.Some? && a'.value !in l && a'.value in l'
        && l' == (if a.None? then l else l - {a.value})[a'.value := l'[a'.value]])
  }

  /** struct binary_s, with the lists that are allocated. */
  class Binary {
    var argv: Option<nat>
    var scriptdepth: nat
    var unload: Option<nat>
    var lists: map<nat, Block>
    var mallocs: nat

    ghost predicate Valid()
      reads this
    {
      && (argv.Some? ==> argv.value in lists)
      && forall h :: h in lists ==> h < mallocs
    }

    ghost function State(): (b: Bin)
      requires Valid()
      reads this
    {
      Bin(if argv.None? then None else Some(Strings(lists[argv.value])), scriptdepth, unload, mallocs)
    }

    /** A binary that nothing was loaded into. */
    constructor ()
      ensures Valid() && State() == Bin(None, 0, None, 0) && lists == map[]
    {
      argv, scriptdepth, unload, lists, mallocs := None, 0, None, map[], 0;
    }

    /** script_setargv: the list before stays allocated, whether or not it works. */
    method SetArgv(w: World, interp: CString, arg: Option<CString>, file: CString) returns (ret: int)
      requires Valid()
      modifies this
      ensures Valid() && mallocs == old(mallocs) + 1 && scriptdepth == old(scriptdepth) && unload == old(unload)
      ensures ret == if w.memory(old(mallocs)) then 0 else -ENOMEM
      ensures ret != 0 ==> argv == old(argv) && lists == old(lists)
      ensures ret == 0 ==> argv == Some(old(mallocs)) && argv.value in lists && lists - {argv.value} == old(lists)
      ensures ret == 0 ==> Strings(lists[argv.value]) == Composed(interp, arg, file, old(State()).args)
    {
      hide Strings, Chars, Holds;
      var src := [interp];
      if arg.Some? {
        src := src + [arg.value];
      }
      src := src + [file];
      var before := if argv.None? then [] else Strings(lists[argv.value]);
      var nargs := |src| + if |before| > 1 then |before| - 1 else 0;
      var all := seq(nargs, i requires 0 <= i < nargs => if i < |src| then src[i] else before[i - |src| + 1]);
      assert all == Composed(interp, arg, file, State().args);
      var size := Size(all);
      var h := mallocs;
      mallocs := mallocs + 1;
      if !w.memory(h) {
        return -ENOMEM;
      }
      var b := Fill(all, size);
      ReadBack(b, all);
      lists := lists[h := b];
      argv := Some(h);
      ret := 0;
    }

    method Free(h: Option<nat>)
      requires h.Some? ==> h.value in lists
      modifies `lists
      ensures lists == if h.None? then old(lists) else old(lists) - {h.value}
    {
      if h.Some? {
        lists := lists - {h.value};
      }
    }

    /** load_module */
    method LoadModule(w: World, name: CString) returns (ret: Code)
      requires Valid()
      modifies this
      ensures Valid() && Outcome(ret, State()) == Loaded(w, old(State()), name)
      ensures exists s: Step ::
                Answers(w, old(scriptdepth), name, s) && Explains(s, old(State()), Outcome(ret, State()))
      ensures Replaced(old(lists), old(argv), lists, argv)
      ensures ret != 0 ==> lists == old(lists) && argv == old(argv)
      decreases Left(scriptdepth), 3, 0
    {
      hide Searched, Tried, Answers;
      ghost var s := LoadedAnswers(w, State(), name);
      if w.sched < 0 {
        return w.sched;
      }
      if name == [] {
        return -ENOENT;
      }
      if Bare(name) {
        ret := Search(w, w.path(name));
      } else {
        ret := LoadFile(w, name);
      }
    }

    /** The loop over PATH in load_module. */
    method Search(w: World, paths: seq<CString>) returns (ret: Code)
      requires Valid()
      modifies this
      ensures Valid() && Outcome(ret, State()) == Searched(w, old(State()), paths, -ENOENT)
      ensures Replaced(old(lists), old(argv), lists, argv)
      ensures ret != 0 ==> lists == old(lists) && argv == old(argv)
      decreases Left(scriptdepth), 2, 0
    {
      hide Tried, Replaced;
      ret := -ENOENT;
      ghost var goal := Searched(w, State(), paths, ret);
      var i := 0;
      assert paths[0..] == paths;
      KeptSame(lists, argv);
      while i < |paths|
        invariant 0 <= i <= |paths| && ret < 0 && Valid() && scriptdepth == old(scriptdepth)
        invariant lists == old(lists) && argv == old(argv)
        invariant Searched(w, State(), paths[i..], ret) == goal
      {
        assert paths[i..][0] == paths[i] && paths[i..][1..] == paths[i + 1..];
        ret := LoadFile(w, paths[i]);
        if ret == 0 {
          return;
        }
        i := i + 1;
      }
      assert paths[i..] == [];
    }

    /** load_absmodule */
    method LoadFile(w: World, file: CString) returns (ret: Code)
      requires Valid()
      modifies this
      ensures Valid() && Outcome(ret, State()) == Tried(w, old(State()), file, w.formats, -ENOENT)
      ensures Replaced(old(lists), old(argv), lists, argv)
      ensures ret != 0 ==> lists == old(lists) && argv == old(argv)
      decreases Left(scriptdepth), 1, 0
    {
      hide Interpreted, Replaced;
      ret := -ENOENT;
      ghost var goal := Tried(w, State(), file, w.formats, ret);
      var i := 0;
      assert w.formats[0..] == w.formats;
      KeptSame(lists, argv);
      while i < |w.formats|
        invariant 0 <= i <= |w.formats| && ret < 0 && Valid() && scriptdepth == old(scriptdepth)
        invariant lists == old(lists) && argv == old(argv)
        invariant Tried(w, State(), file, w.formats[i..], ret) == goal
      {
        var f := w.formats[i];
        assert w.formats[i..][0] == f && w.formats[i..][1..] == w.formats[i + 1..];
        match f {
          case Other(load, _) =>
            ret := load(file);
          case Script =>
            ret := LoadScript(w, file);
        }
        if ret == 0 {
          if f.Other? && f.unload.Some? {
            unload := f.unload;
          }
          return;
        }
        if ret == -EACCES {
          return;
        }
        i := i + 1;
      }
      assert w.formats[i..] == [];
    }

    /** script_loadbinary */
    method LoadScript(w: World, file: CString) returns (ret: Code)
      requires Valid()
      modifies this
      ensures Valid() && Outcome(ret, State()) == Interpreted(w, old(State()), file)
      ensures Replaced(old(lists), old(argv), lists, argv)
      ensures ret != 0 ==> lists == old(lists) && argv == old(argv)
      decreases Left(scriptdepth), 0, 0
    {
      hide Loaded, Ordered, Strings, Composed, Answers, Explains;
      var oldargv := argv;
      if w.file(file).Refused? {
        return w.file(file).error;
      }
      var head := w.file(file).head;
      if !Magic(head) {
        return -ENOEXEC;
      }
      if scriptdepth >= DEPTH_MAX {
        return -ELOOP;
      }
      var order := Parse(head);
      if order.None? {
        return -ENOEXEC;
      }
      ret := SetArgv(w, order.value.interp, order.value.arg, file);
      if ret < 0 {
        return;
      }
      scriptdepth := scriptdepth + 1;
      ret := LoadModule(w, order.value.interp);
      scriptdepth := scriptdepth - 1;
      if ret < 0 {
        Free(argv);
        argv := oldargv;
        return;
      }
      Free(oldargv);
    }
  }

  lemma KeptSame(l: map<nat, Block>, a: Option<nat>)
    ensures Replaced(l, a, l, a)
  {
  }

  /** The buffer that the first bytes of a file are read into. */
  method Parse(head: Head) returns (order: Option<Order>)
    requires Magic(head)
    ensures order == Ordered(head)
  {
    hide Names, LineAt, Spaces;
    var header := new char[HEADER_MAX];
    for i := 0 to |head|
      invariant header[..i] == head[..i]
    {
      header[i] := head[i];
    }
    header[|head|] := '\0';
    assert header[..|head|] == head;
    ghost var rest := header[|head| + 1..];
    assert header[..] == head + ['\0'] + rest;
    LineRead(head, rest, 2);
    assert header[..][|head|] == '\0';
    var interp, arg, ok := Cut(header);
    order := if ok then Some(Order(interp, arg)) else None;
    OrderedIs(head, Order(interp, arg), ok);
  }

  lemma {:induction false} LineRead(head: string, rest: string, at: nat)
    requires at <= |head|
    ensures LineAt(head + ['\0'] + rest, at) == LineAt(head, at)
    decreases |head| - at
  {
    if at < |head| { LineRead(head, rest, at + 1); }
  }

  lemma OrderedIs(head: string, o: Order, ok: bool)
    requires ok <==> !Spaces(LineAt(head, 2))
    requires ok ==> Names(LineAt(head, 2), o.interp, o.arg)
    ensures Ordered(head) == if ok then Some(o) else None
  {
    hide Names, LineAt, Spaces, Ordered;
    OrderedSpaces(head);
    if ok {
      var q := Ordered(head).value;
      NamesOne(LineAt(head, 2), q.interp, q.arg, o.interp, o.arg);
    }
  }
}
