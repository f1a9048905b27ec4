/** binfmt/script.c: the first line of a script, cut up in place. */
module Shebang {
  import opened ArgList
  import opened Wrappers

  /** SCRIPT_HEADER_MAX */
  const HEADER_MAX: nat := 128

  /** isspace in the C locale */
  predicate Space(c: char): (b: bool)
    ensures b <==> c in {' ', '\t', '\n', '\U{b}', '\U{c}', '\r'}
  {
    c == ' ' || '\t' <= c <= '\r'
  }

  ghost predicate Spaces(s: string)
  {
    forall i :: 0 <= i < |s| ==> Space(s[i])
  }

  ghost predicate Word(s: string)
  {
    s != [] && forall i :: 0 <= i < |s| ==> !Space(s[i])
  }

  /** Text that neither starts nor ends with white space. */
  ghost predicate Trimmed(s: string)
  {
    s != [] && !Space(s[0]) && !Space(s[|s| - 1])
  }

  /** How a line gives an interpreter and an argument. */
  ghost predicate Gives(line: string, interp: string, arg: Option<string>, w: string, x: string, y: string)
  {
    && Spaces(w) && Word(interp) && Spaces(x)
    && match arg {
         case None => line == w + interp + x
         case Some(a) => x != [] && Trimmed(a) && Spaces(y) && line == w + interp + x + a + y
       }
  }

  ghost predicate Names(line: string, interp: string, arg: Option<string>)
  {
    exists w, x, y :: Gives(line, interp, arg, w, x, y)
  }

  /** The C string at a place of the buffer, up to a NUL or the end of the line. */
  function LineAt(s: string, at: nat): (l: CString)
    ensures '\n' !in l
    decreases |s| - at
  {
    if at >= |s| || s[at] == '\0' || s[at] == '\n' then []
    else [s[at]] + LineAt(s, at + 1)
  }

  /** The white space in front of a word is all there is. */
  lemma SameStart(line: string, w: string, rest: string, w': string, rest': string)
    requires line == w + rest == w' + rest' && Spaces(w) && Spaces(w')
    requires rest != [] && rest' != [] && !Space(rest[0]) && !Space(rest'[0])
    ensures w == w' && rest == rest'
  {
    assert forall i :: 0 <= i < |w| ==> Space(line[i]);
    assert forall i :: 0 <= i < |w'| ==> Space(line[i]);
    assert line[|w|] == rest[0] && line[|w'|] == rest'[0];
    assert w == line[..|w|] && w' == line[..|w'|] && rest == line[|w|..] && rest' == line[|w'|..];
  }

  ghost predicate Stops(rest: string)
  {
    rest == [] || Space(rest[0])
  }

  /** A word ends where white space or the line's end follows. */
  lemma SameWord(line: string, v: string, rest: string, v': string, rest': string)
    requires line == v + rest == v' + rest' && Word(v) && Word(v') && Stops(rest) && Stops(rest')
    ensures v == v' && rest == rest'
  {
    assert forall i :: 0 <= i < |v| ==> !Space(line[i]);
    assert forall i :: 0 <= i < |v'| ==> !Space(line[i]);
    assert rest != [] ==> line[|v|] == rest[0];
    assert rest' != [] ==> line[|v'|] == rest'[0];
    assert v == line[..|v|] && v' == line[..|v'|] && rest == line[|v|..] && rest' == line[|v'|..];
  }

  lemma SameEnd(line: string, a: string, y: string, a': string, y': string)
    requires line == a + y == a' + y' && Trimmed(a) && Trimmed(a') && Spaces(y) && Spaces(y')
    ensures a == a'
  {
    assert forall i :: |a| <= i < |line| ==> line[i] == y[i - |a|];
    assert forall i :: |a'| <= i < |line| ==> line[i] == y'[i - |a'|];
    assert line[|a| - 1] == a[|a| - 1] && line[|a'| - 1] == a'[|a'| - 1];
    assert a == line[..|a|] && a' == line[..|a'|];
  }

  ghost function Rest(arg: Option<string>, x: string, y: string): (s: string)
  {
    if arg.None? then x else x + arg.value + y
  }

  /** What a line gives, as a word and what follows it. */
  lemma GivesRest(line: string, interp: string, arg: Option<string>, w: string, x: string, y: string)
    requires Gives(line, interp, arg, w, x, y)
    ensures line == w + (interp + Rest(arg, x, y)) && Spaces(w) && Word(interp) && Stops(Rest(arg, x, y))
    ensures interp != [] && (interp + Rest(arg, x, y))[0] == interp[0] && !Space(interp[0])
    ensures Spaces(x) && (arg.Some? ==> Trimmed(arg.value) && Spaces(y))
  {
  }

  /** A line names at most one interpreter and argument. */
  lemma NamesOne(line: string, interp: string, arg: Option<string>, interp': string, arg': Option<string>)
    requires Names(line, interp, arg) && Names(line, interp', arg')
    ensures interp == interp' && arg == arg'
  {
    hide Gives, Rest, Word, Spaces, Stops, Trimmed;
    var w, x, y :| Gives(line, interp, arg, w, x, y);
    var w', x', y' :| Gives(line, interp', arg', w', x', y');
    var r, r' := Rest(arg, x, y), Rest(arg', x', y');
    GivesRest(line, interp, arg, w, x, y);
    GivesRest(line, interp', arg', w', x', y');
    SameStart(line, w, interp + r, w', interp' + r');
    SameWord(interp + r, interp, r, interp', r');
    SameRest(r, arg, x, y, arg', x', y');
  }

  lemma SameRest(r: string, arg: Option<string>, x: string, y: string, arg': Option<string>, x': string, y': string)
    requires r == Rest(arg, x, y) == Rest(arg', x', y')
    requires Spaces(x) && Spaces(x') && (arg.Some? ==> Trimmed(arg.value) && Spaces(y))
    requires arg'.Some? ==> Trimmed(arg'.value) && Spaces(y')
    ensures arg == arg'
  {
    assert arg.Some? ==> r[|x|] == arg.value[0];
    assert arg'.Some? ==> r[|x'|] == arg'.value[0];
    if arg.Some? && arg'.Some? {
      assert r == x + (arg.value + y) == x' + (arg'.value + y');
      SameStart(r, x, arg.value + y, x', arg'.value + y');
      SameEnd(arg.value + y, arg.value, y, arg'.value, y');
    }
  }

  /** A line that is all white space names none. */
  lemma NamesNone(line: string, interp: string, arg: Option<string>)
    requires Names(line, interp, arg)
    ensures !Spaces(line)
  {
    var w, x, y :| Gives(line, interp, arg, w, x, y);
    assert line[|w|] == interp[0];
  }

  /** Where the white space, or the word, at the start of a text ends. */
  lemma Leading(s: string, space: bool) returns (n: nat)
    ensures n <= |s| && (forall i :: 0 <= i < n ==> Space(s[i]) == space)
    ensures n < |s| ==> Space(s[n]) != space
  {
    n := 0;
    while n < |s| && Space(s[n]) == space
      invariant n <= |s| && forall i :: 0 <= i < n ==> Space(s[i]) == space
    {
      n := n + 1;
    }
  }

  lemma Trailing(s: string) returns (n: nat)
    requires s != [] && !Space(s[0])
    ensures 0 < n <= |s| && Trimmed(s[..n]) && Spaces(s[n..])
  {
    n := |s|;
    while Space(s[n - 1])
      invariant 0 < n <= |s| && forall i :: n <= i < |s| ==> Space(s[i])
      decreases n
    {
      n := n - 1;
    }
  }

  lemma FirstWord(line: string) returns (w: string, v: string, rest: string)
    requires !Spaces(line)
    ensures line == w + v + rest && Spaces(w) && Word(v) && Stops(rest)
  {
    var i := Leading(line, true);
    var more := line[i..];
    var j := Leading(more, false);
    w, v, rest := line[..i], more[..j], more[j..];
    assert line == w + more && more == v + rest;
  }

  lemma AfterWord(rest: string) returns (arg: Option<string>, x: string, y: string)
    requires Stops(rest)
    ensures rest == Rest(arg, x, y) && Spaces(x)
    ensures arg.Some? ==> x != [] && Trimmed(arg.value) && Spaces(y)
  {
    var k := Leading(rest, true);
    x := rest[..k];
    if k == |rest| {
      arg, y := None, [];
    } else {
      var more := rest[k..];
      var n := Trailing(more);
      arg, y := Some(more[..n]), more[n..];
      assert rest == x + more && more == more[..n] + more[n..];
    }
  }

  /** Every other line names one. */
  lemma NamesSome(line: string) returns (interp: string, arg: Option<string>)
    requires !Spaces(line)
    ensures Names(line, interp, arg)
    ensures (forall c :: c in interp ==> c in line) && (arg.Some? ==> forall c :: c in arg.value ==> c in line)
  {
    hide Spaces, Word, Trimmed, Stops;
    var w, v, rest := FirstWord(line);
    var a, x, y := AfterWord(rest);
    interp, arg := v, a;
    if a.Some? { assert line == w + v + x + a.value + y; }
    assert Gives(line, interp, arg, w, x, y);
  }

  lemma {:induction false} LineIs(s: string, at: nat, n: nat)
    requires at + n < |s| && (s[at + n] == '\0' || s[at + n] == '\n')
    requires forall k :: at <= k < at + n ==> s[k] != '\0' && s[k] != '\n'
    ensures LineAt(s, at) == s[at..at + n]
    decreases n
  {
    if n != 0 {
      LineIs(s, at + 1, n - 1);
      assert s[at..at + n] == [s[at]] + s[at + 1..at + n];
    }
  }

  lemma {:induction false} StringIs(s: string, at: nat, n: nat)
    requires at + n < |s| && s[at + n] == '\0'
    requires forall k :: at <= k < at + n ==> s[k] != '\0'
    ensures StringAt(s, at) == s[at..at + n]
    decreases n
  {
    if n != 0 {
      StringIs(s, at + 1, n - 1);
      assert s[at..at + n] == [s[at]] + s[at + 1..at + n];
    }
  }

  /** The buffer ends in a NUL, as the reader of the file left it. */
  ghost predicate Ended(s: string)
  {
    |s| == HEADER_MAX && exists n :: 2 <= n < |s| && s[n] == '\0'
  }

  /** The line from its second character on, cut at the newline. */
  method CutLine(header: array<char>) returns (last: nat)
    requires Ended(header[..])
    modifies header
    ensures 2 <= last < header.Length == HEADER_MAX && header[last] == '\0'
    ensures header[2..last] == LineAt(old(header[..]), 2)
    ensures forall k :: 2 <= k < last ==> header[k] != '\0'
  {
    ghost var s := header[..];
    ghost var n :| 2 <= n < |s| && s[n] == '\0';
    last := 2;
    while header[last] != '\0' && header[last] != '\n'
      invariant 2 <= last <= n
      invariant forall k :: 2 <= k < last ==> header[k] != '\0' && header[k] != '\n'
      decreases n - last
    {
      last := last + 1;
    }
    LineIs(s, 2, last - 2);
    assert header[2..last] == s[2..last];
    if header[last] == '\n' {
      header[last] := '\0';
    }
    assert header[2..last] == s[2..last];
  }

  method SkipSpaces(header: array<char>, from: nat, last: nat) returns (at: nat)
    requires from <= last < header.Length && header[last] == '\0'
    ensures from <= at <= last && Spaces(header[from..at]) && !Space(header[at])
  {
    at := from;
    while Space(header[at])
      invariant from <= at <= last && forall k :: from <= k < at ==> Space(header[k])
      decreases last - at
    {
      at := at + 1;
    }
  }

  /** The end of the word that starts at a character. */
  method WordEnd(header: array<char>, from: nat, last: nat) returns (at: nat)
    requires from <= last < header.Length && header[last] == '\0'
    ensures from <= at <= last && forall k :: from <= k < at ==> !Space(header[k])
    ensures header[at] == '\0' || Space(header[at])
  {
    at := from;
    while header[at] != '\0' && !Space(header[at])
      invariant from <= at <= last && forall k :: from <= k < at ==> !Space(header[k])
      decreases last - at
    {
      at := at + 1;
    }
  }

  /** The end of the text that starts at a character, without the white space behind. */
  method TextEnd(header: array<char>, from: nat, last: nat) returns (at: nat)
    requires from < last < header.Length && !Space(header[from])
    ensures from < at <= last && !Space(header[at - 1]) && Spaces(header[at..last])
  {
    at := last;
    while Space(header[at - 1])
      invariant from < at <= last && forall k :: at <= k < last ==> Space(header[k])
      decreases at
    {
      at := at - 1;
    }
  }

  /** The white space after the interpreter is cut, and the argument behind it. */
  method CutArg(header: array<char>, end: nat, last: nat)
    returns (arg: Option<CString>, ghost from: nat, ghost stop: nat)
    requires end < last < header.Length && header[last] == '\0' && Space(header[end])
    requires forall k :: end <= k < last ==> header[k] != '\0'
    modifies header
    ensures header[..end] == old(header[..end]) && header[end] == '\0'
    ensures arg.None? ==> Spaces(old(header[end..last]))
    ensures arg.Some? ==> end < from < stop <= last && arg.value == old(header[..])[from..stop]
    ensures arg.Some? ==> Spaces(old(header[..])[end..from]) && Trimmed(arg.value)
    ensures arg.Some? ==> Spaces(old(header[..])[stop..last])
  {
    hide StringAt;
    ghost var s := header[..];
    arg, stop := None, 0;
    header[end] := '\0';
    var at := SkipSpaces(header, end + 1, last);
    from := at;
    assert Spaces(s[end..at]) by {
      assert forall k :: end + 1 <= k < at ==> header[k] == header[end + 1..at][k - end - 1];
    }
    if header[at] == '\0' {
      assert at == last;
      return;
    }
    var cut := TextEnd(header, at, last);
    assert Spaces(s[cut..last]) by { assert header[cut..last] == s[cut..last]; }
    stop := cut;
    header[cut] := '\0';
    StringIs(header[..], at, cut - at);
    arg := Some(StringAt(header[..], at));
    assert arg.value == s[at..cut];
  }

  /** The interpreter and the argument are cut out of the line where they stand. */
  method Cut(header: array<char>) returns (interp: CString, arg: Option<CString>, ok: bool)
    requires Ended(header[..])
    modifies header
    ensures ok <==> !Spaces(LineAt(old(header[..]), 2))
    ensures ok ==> Names(LineAt(old(header[..]), 2), interp, arg)
  {
    hide LineAt, StringAt, Names, Trimmed;
    interp, arg, ok := [], None, false;
    var last := CutLine(header);
    ghost var line := header[2..last];
    var start := SkipSpaces(header, 2, last);
    if header[start] == '\0' {
      return;
    }
    ok := true;
    ghost var s := header[..];
    var end := WordEnd(header, start, last);
    if header[end] != '\0' {
      ghost var from, stop;
      arg, from, stop := CutArg(header, end, last);
      if arg.Some? { Parts(s, line, start, end, from, stop, last); }
    }
    if arg.None? { Lone(s, line, start, end, last); }
    assert header[..end] == s[..end];
    StringIs(header[..], start, end - start);
    interp := StringAt(header[..], start);
    assert interp == header[..end][start..end];
  }

  lemma Lone(s: string, line: string, start: nat, end: nat, last: nat)
    requires 2 <= start < end <= last < |s| && line == s[2..last]
    requires Spaces(s[2..start]) && Word(s[start..end]) && Spaces(s[end..last])
    ensures Names(line, s[start..end], None) && !Spaces(line)
  {
    assert line == s[2..start] + s[start..end] + s[end..last];
    assert Gives(line, s[start..end], None, s[2..start], s[end..last], []);
    NamesNone(line, s[start..end], None);
  }

  lemma Parts(s: string, line: string, start: nat, end: nat, from: nat, stop: nat, last: nat)
    requires 2 <= start < end < from < stop <= last < |s| && line == s[2..last]
    requires Spaces(s[2..start]) && Word(s[start..end]) && Spaces(s[end..from])
    requires Trimmed(s[from..stop]) && Spaces(s[stop..last])
    ensures Names(line, s[start..end], Some(s[from..stop])) && !Spaces(line)
  {
    assert line == s[2..start] + s[start..end] + s[end..from] + s[from..stop] + s[stop..last];
    assert Gives(line, s[start..end], Some(s[from..stop]), s[2..start], s[end..from], s[stop..last]);
    NamesNone(line, s[start..end], Some(s[from..stop]));
  }
}
