/** Argument lists held in one allocation, pointers first and the characters after
    them: what script_setargv (binfmt/script.c) and binfmt_copyargv
    (binfmt/binfmt_copyargv.c) build. */
module ArgList {
  import opened Wrappers

  const E2BIG: int := 7
  const ENOMEM: int := 12

  /** CONFIG_TASK_MAX_ARGS */
  const MAX_ARGS: nat

  /** The characters before the terminating NUL. */
  type CString = s: string | '\0' !in s

  /** The allocation: where each string starts, and the characters. */
  datatype Block = Block(starts: seq<nat>, chars: string)

  /** The C string that starts at a character. */
  function StringAt(chars: string, at: nat): (s: CString)
    decreases |chars| - at
  {
    if at >= |chars| || chars[at] == '\0' then []
    else [chars[at]] + StringAt(chars, at + 1)
  }

  /** The list as its reader sees it. */
  function Strings(b: Block): (l: seq<CString>)
    ensures |l| == |b.starts|
  {
    seq(|b.starts|, i requires 0 <= i < |b.starts| => StringAt(b.chars, b.starts[i]))
  }

  /** How the strings lie one after the other. */
  function Chars(l: seq<CString>): (s: string)
  {
    if l == [] then [] else Chars(l[..|l| - 1]) + l[|l| - 1] + ['\0']
  }

  lemma {:induction false} StringFound(before: string, s: CString, after: string)
    ensures StringAt(before + s + ['\0'] + after, |before|) == s
    decreases |s|
  {
    var all := before + s + ['\0'] + after;
    if s == [] {
      assert all[|before|] == '\0';
    } else {
      StringFound(before + [s[0]], s[1..], after);
      assert (before + [s[0]]) + s[1..] + ['\0'] + after == all;
      assert [s[0]] + s[1..] == s;
    }
  }

  /** The strings before a place lie before it. */
  lemma {:induction false} CharsSplit(l: seq<CString>, i: nat)
    requires i < |l|
    ensures |Chars(l[..i])| + |l[i]| + 1 <= |Chars(l)|
    ensures exists after :: Chars(l) == Chars(l[..i]) + l[i] + ['\0'] + after
  {
    var m := l[..|l| - 1];
    if i == |l| - 1 {
      assert Chars(l) == Chars(l[..i]) + l[i] + ['\0'] + [];
    } else {
      CharsSplit(m, i);
      assert m[..i] == l[..i];
      var after :| Chars(m) == Chars(m[..i]) + m[i] + ['\0'] + after;
      assert Chars(l) == Chars(l[..i]) + l[i] + ['\0'] + (after + l[|l| - 1] + ['\0']);
    }
  }

  /** A list laid out this way reads back as itself. */
  ghost predicate Holds(b: Block, l: seq<CString>)
  {
    && b.chars == Chars(l)
    && |b.starts| == |l|
    && forall i :: 0 <= i < |l| ==> b.starts[i] == |Chars(l[..i])|
  }

  lemma ReadBack(b: Block, l: seq<CString>)
    requires Holds(b, l)
    ensures Strings(b) == l
  {
    hide Chars, StringAt;
    forall i | 0 <= i < |l| ensures Strings(b)[i] == l[i] {
      CharsSplit(l, i);
      var after :| Chars(l) == Chars(l[..i]) + l[i] + ['\0'] + after;
      StringFound(Chars(l[..i]), l[i], after);
    }
  }

  lemma CharsMore(l: seq<CString>, i: nat)
    requires i < |l|
    ensures Chars(l[..i + 1]) == Chars(l[..i]) + l[i] + ['\0']
    ensures |Chars(l[..i + 1])| <= |Chars(l)|
  {
    hide Chars;
    CharsLast(l[..i + 1]);
    assert l[..i + 1][..i] == l[..i];
    CharsSplit(l, i);
  }

  lemma CharsLast(l: seq<CString>)
    requires l != []
    ensures Chars(l) == Chars(l[..|l| - 1]) + l[|l| - 1] + ['\0']
  {
  }

  /** strlen of each string and its NUL, added up. */
  method Size(l: seq<CString>) returns (size: nat)
    ensures size == |Chars(l)|
  {
    hide Chars;
    size := 0;
    assert Chars(l[..0]) == [] by { NoChars(); }
    for i := 0 to |l|
      invariant size == |Chars(l[..i])|
    {
      CharsMore(l, i);
      size := size + |l[i]| + 1;
    }
    assert l[..|l|] == l;
  }

  lemma NoChars()
    ensures Chars([]) == []
  {
  }

  /** A string and its NUL, copied to a place in a buffer. */
  method Put(chars: array<char>, at: nat, s: CString)
    requires at + |s| < chars.Length
    modifies chars
    ensures chars[..at + |s| + 1] == old(chars[..at]) + s + ['\0']
  {
    for i := 0 to |s|
      invariant chars[..at + i] == old(chars[..at]) + s[..i]
    {
      chars[at + i] := s[i];
    }
    chars[at + |s|] := '\0';
  }

  /** The copying loops of script_setargv and binfmt_copyargv: every string finds the
      room that was counted for it. */
  method Fill(l: seq<CString>, size: nat) returns (b: Block)
    requires size == |Chars(l)|
    ensures Holds(b, l)
  {
    hide Chars;
    var chars := new char[size];
    var starts: seq<nat> := [];
    var at: nat := 0;
    NoChars();
    for i := 0 to |l|
      invariant at == |Chars(l[..i])| <= size && chars[..at] == Chars(l[..i])
      invariant |starts| == i && forall k :: 0 <= k < i ==> starts[k] == |Chars(l[..k])|
    {
      CharsMore(l, i);
      starts := starts + [at];
      Put(chars, at, l[i]);
      at := at + |l[i]| + 1;
    }
    assert l[..|l|] == l && chars[..at] == chars[..];
    b := Block(starts, chars[..]);
  }

  /** The interpreter's list: interp, arg if there is one, the script, and what followed
      the first entry of the list before. */
  function Composed(interp: CString, arg: Option<CString>, file: CString, before: Option<seq<CString>>):
    (l: seq<CString>)
  {
    [interp] + (if arg.None? then [] else [arg.value]) + [file]
    + if before.None? || before.value == [] then [] else before.value[1..]
  }

  /** The list the program starts with: the loader's, if any, stands for argv[0]. */
  function Started(ldargv: Option<seq<CString>>, argv: Option<seq<CString>>): (l: seq<CString>)
  {
    var all := if argv.None? then [] else argv.value;
    if ldargv.None? then all else ldargv.value + if all == [] then [] else all[1..]
  }

  /** binfmt_nargs */
  method NumArgs(ldargv: Option<seq<CString>>, argv: Option<seq<CString>>) returns (ret: int, nld: nat)
    ensures nld == if ldargv.None? then 0 else |ldargv.value|
    ensures ret == if |Started(ldargv, argv)| - nld > MAX_ARGS then -E2BIG else |Started(ldargv, argv)|
  {
    nld := 0;
    if ldargv.Some? {
      while nld < |ldargv.value|
        invariant nld <= |ldargv.value|
      {
        nld := nld + 1;
      }
    }
    var nargs := 0;
    if argv.Some? {
      var first := if ldargv.Some? && argv.value != [] then 1 else 0;
      for i := first to |argv.value|
        invariant nargs == i - first <= MAX_ARGS
      {
        nargs := nargs + 1;
        if nargs > MAX_ARGS {
          return -E2BIG, nld;
        }
      }
    }
    ret := nld + nargs;
  }

  /** binfmt_arg */
  function Arg(ldargv: Option<seq<CString>>, argv: Option<seq<CString>>, nld: nat, i: nat): (s: CString)
    requires i < |Started(ldargv, argv)|
    requires nld == if ldargv.None? then 0 else |ldargv.value|
    ensures s == Started(ldargv, argv)[i]
  {
    if i < nld then ldargv.value[i] else argv.value[i - nld + if ldargv.Some? then 1 else 0]
  }

  /** binfmt_copyargv with separate address spaces: the strings are copied. */
  method CopyStrings(ldargv: Option<seq<CString>>, argv: Option<seq<CString>>, memory: bool)
    returns (ret: int, copy: Option<Block>)
    ensures ret == -E2BIG <==> |Started(ldargv, argv)| > MAX_ARGS + if ldargv.None? then 0 else |ldargv.value|
    ensures ret == 0 <==> ret != -E2BIG && (memory || Started(ldargv, argv) == [])
    ensures ret in {0, -E2BIG, -ENOMEM}
    ensures ret == 0 ==> (copy.None? <==> Started(ldargv, argv) == [])
    ensures ret == 0 && copy.Some? ==> Strings(copy.value) == Started(ldargv, argv)
    ensures ret != 0 ==> copy.None?
  {
    hide Chars, Strings, Holds;
    copy := None;
    var nargs, nld := NumArgs(ldargv, argv);
    if nargs < 0 {
      return nargs, None;
    }
    var l := seq(nargs, i requires 0 <= i < nargs => Arg(ldargv, argv, nld, i));
    assert l == Started(ldargv, argv);
    var argsize := Size(l);
    SizePositive(l);
    if argsize > 0 {
      if !memory {
        return -ENOMEM, None;
      }
      var b := Fill(l, argsize);
      ReadBack(b, l);
      copy := Some(b);
    }
    ret := 0;
  }

  lemma SizePositive(l: seq<CString>)
    ensures |Chars(l)| > 0 <==> l != []
  {
  }

  /** binfmt_copyargv with one address space: without a loader's list the caller's is
      used, otherwise a new list of the same strings. */
  method CopyPointers(ldargv: Option<seq<CString>>, argv: Option<seq<CString>>, memory: bool)
    returns (ret: int, copy: Option<seq<CString>>)
    ensures ldargv.None? ==> ret == 0 && copy == argv
    ensures ldargv.Some? ==>
      ret == if |Started(ldargv, argv)| > MAX_ARGS + |ldargv.value| then -E2BIG else if memory then 0 else -ENOMEM
    ensures ldargv.Some? ==> copy == if ret == 0 then Some(Started(ldargv, argv)) else None
  {
    if ldargv.None? {
      return 0, argv;
    }
    var nargs, nld := NumArgs(ldargv, argv);
    if nargs < 0 {
      return nargs, None;
    }
    if !memory {
      return -ENOMEM, None;
    }
    var list: seq<CString> := [];
    for i := 0 to nargs
      invariant list == Started(ldargv, argv)[..i]
    {
      list := list + [Arg(ldargv, argv, nld, i)];
    }
    assert Started(ldargv, argv)[..nargs] == Started(ldargv, argv);
    return 0, Some(list);
  }
}
