/** audio/pcm_decode.c: fast forward by sub-sampling, in place in each audio
    buffer, with the phase carried from one buffer to the next. */
module PcmSubsample {
  import opened Arith
  import opened Machine

  /** The phase after phase r: from 0 to a in a sample, and from -g to 0 in the gap
      behind it. */
  function Next(r: int, a: nat, g: nat): (n: int)
  {
    if r + 1 >= a then 0 - g else r + 1
  }

  /** The bytes of s, met from phase r on, that fall into a sample. */
  function Kept(s: seq<byte>, r: int, a: nat, g: nat): (k: seq<byte>)
  {
    if |s| == 0 then [] else (if r >= 0 then [s[0]] else []) + Kept(s[1..], Next(r, a, g), a, g)
  }

  /** The phase after n bytes. */
  function Phase(r: int, n: nat, a: nat, g: nat): (p: int)
    decreases n
  {
    if n == 0 then r else Phase(Next(r, a, g), n - 1, a, g)
  }

  lemma KeptCons(x: byte, s: seq<byte>, r: int, a: nat, g: nat)
    ensures Kept([x] + s, r, a, g) == (if r >= 0 then [x] else []) + Kept(s, Next(r, a, g), a, g)
  {
    assert ([x] + s)[1..] == s;
  }

  /** However a stream is cut, the pieces keep what the whole keeps. */
  lemma {:induction false} KeptConcat(s: seq<byte>, u: seq<byte>, r: int, a: nat, g: nat)
    ensures Kept(s + u, r, a, g) == Kept(s, r, a, g) + Kept(u, Phase(r, |s|, a, g), a, g)
  {
    hide Next;
    if |s| == 0 {
      assert s + u == u;
    } else {
      hide Kept;
      var x, tail := s[0], s[1..];
      KeptCons(x, tail, r, a, g);
      KeptCons(x, tail + u, r, a, g);
      assert s == [x] + tail && s + u == [x] + (tail + u);
      KeptConcat(tail, u, Next(r, a, g), a, g);
    }
  }

  lemma {:induction false} PhaseAdd(r: int, m: nat, n: nat, a: nat, g: nat)
    ensures Phase(r, m + n, a, g) == Phase(Phase(r, m, a, g), n, a, g)
    decreases m
  {
    if m != 0 {
      PhaseAdd(Next(r, a, g), m - 1, n, a, g);
    }
  }

  /** A run inside one sample is kept whole. */
  lemma {:induction false} KeptRun(s: seq<byte>, r: nat, a: nat, g: nat)
    requires r + |s| <= a
    ensures Kept(s, r, a, g) == s
    ensures r + |s| < a ==> Phase(r, |s|, a, g) == r + |s|
    ensures r + |s| == a && |s| > 0 ==> Phase(r, |s|, a, g) == 0 - g
  {
    if |s| > 0 {
      if r + 1 < a {
        KeptRun(s[1..], r + 1, a, g);
      }
      assert s == [s[0]] + s[1..];
    }
  }

  /** A run inside the gap is dropped whole. */
  lemma {:induction false} SkippedRun(s: seq<byte>, r: int, a: nat, g: nat)
    requires r + |s| <= 0 < a
    ensures Kept(s, r, a, g) == []
    ensures Phase(r, |s|, a, g) == r + |s|
  {
    if |s| > 0 {
      SkippedRun(s[1..], r + 1, a, g);
    }
  }

  /** The copy loop, from a higher place to a lower one. */
  method CopyDown(samp: array<byte>, dest: nat, src: nat, n: nat)
    requires dest <= src && src + n <= samp.Length
    modifies samp
    ensures forall k :: 0 <= k < dest ==> samp[k] == old(samp[k])
    ensures forall k :: dest <= k < dest + n ==> samp[k] == old(samp[k + src - dest])
    ensures forall k :: src + n <= k < samp.Length ==> samp[k] == old(samp[k])
  {
    for i := 0 to n
      invariant forall k :: 0 <= k < dest ==> samp[k] == old(samp[k])
      invariant forall k :: dest <= k < dest + i ==> samp[k] == old(samp[k + src - dest])
      invariant forall k :: src + i <= k < samp.Length ==> samp[k] == old(samp[k])
    {
      samp[dest + i] := samp[src + i];
    }
  }

  /** Bytes kept so far at the bottom of the buffer, and the rest of the content c
      still where it was. */
  ghost predicate Layout(samp: array<byte>, c: seq<byte>, j: nat, kept: seq<byte>, dest: nat, src: nat)
    reads samp
  {
    && j <= |c| && dest <= src && src + |c| - j <= samp.Length
    && samp[..dest] == kept
    && samp[src..src + |c| - j] == c[j..]
  }

  method Move(samp: array<byte>, dest: nat, src: nat, n: nat, ghost c: seq<byte>, ghost j: nat, ghost kept: seq<byte>)
    requires Layout(samp, c, j, kept, dest, src) && j + n <= |c|
    modifies samp
    ensures Layout(samp, c, j + n, kept + c[j..j + n], dest + n, src + n)
  {
    ghost var all := samp[..];
    CopyDown(samp, dest, src, n);
    Relaid(all, samp[..], dest, src, n, c[j..]);
    assert c[j..][..n] == c[j..j + n] && c[j..][n..] == c[j + n..];
  }

  lemma Relaid(all: seq<byte>, now: seq<byte>, dest: nat, src: nat, n: nat, rest: seq<byte>)
    requires |all| == |now| && dest <= src && src + |rest| <= |all| && n <= |rest| && all[src..src + |rest|] == rest
    requires forall k :: 0 <= k < dest ==> now[k] == all[k]
    requires forall k :: dest <= k < dest + n ==> now[k] == all[k + src - dest]
    requires forall k :: src + n <= k < |all| ==> now[k] == all[k]
    ensures now[..dest + n] == all[..dest] + rest[..n]
    ensures now[src + n..src + |rest|] == rest[n..]
  {
    forall k | 0 <= k < |rest| ensures all[src + k] == rest[k] {
      assert all[src..src + |rest|][k] == all[src + k];
    }
    forall k | dest <= k < dest + n ensures now[k] == rest[k - dest] {
      assert now[k] == all[src + (k - dest)];
    }
    forall k | n <= k < |rest| ensures now[src + k] == rest[k] {
    }
  }

  /** Passing over bytes moves only the reading end. */
  lemma Passed(samp: array<byte>, dest: nat, src: nat, n: nat, c: seq<byte>, j: nat, kept: seq<byte>)
    requires Layout(samp, c, j, kept, dest, src) && j + n <= |c|
    ensures Layout(samp, c, j + n, kept, dest, src + n)
  {
    assert samp[src + n..src + |c| - j] == samp[src..src + |c| - j][n..] == c[j..][n..] == c[j + n..];
  }

  /** The next n bytes of a stream, all inside a sample or all inside a gap. */
  lemma KeptNext(c: seq<byte>, j: nat, n: nat, r: int, a: nat, g: nat)
    requires j + n <= |c| && a >= 1
    ensures var w := Phase(r, j, a, g);
            && (0 <= w && w + n <= a ==> Kept(c[..j + n], r, a, g) == Kept(c[..j], r, a, g) + c[j..j + n])
            && (0 <= w && w + n < a ==> Phase(r, j + n, a, g) == w + n)
            && (0 <= w && w + n == a && n > 0 ==> Phase(r, j + n, a, g) == 0 - g)
            && (w + n <= 0 ==> Kept(c[..j + n], r, a, g) == Kept(c[..j], r, a, g) && Phase(r, j + n, a, g) == w + n)
  {
    hide Kept, Phase;
    var w, run := Phase(r, j, a, g), c[j..j + n];
    assert c[..j + n] == c[..j] + run;
    KeptConcat(c[..j], run, r, a, g);
    PhaseAdd(r, j, n, a, g);
    if 0 <= w && w + n <= a {
      KeptRun(run, w, a, g);
    }
    if w + n <= 0 {
      SkippedRun(run, w, a, g);
    }
  }

  /** struct ap_buffer_s */
  class AudioBuffer {
    const samp: array<byte>
    var curbyte: nat
    var nbytes: nat

    constructor (data: array<byte>, first: nat, end: nat)
      requires first <= end <= data.Length
      ensures samp == data && curbyte == first && nbytes == end
    {
      samp, curbyte, nbytes := data, first, end;
    }

    ghost predicate Valid()
      reads this
    {
      curbyte <= nbytes <= samp.Length
    }

    /** The bytes yet to be played. */
    ghost function Content(): (s: seq<byte>)
      requires Valid()
      reads this, samp
    {
      samp[curbyte..nbytes]
    }
  }

  /** The fields of struct pcm_decode_s that sub-sampling uses. */
  class Decoder {
    const align: byte
    var subsample: byte
    var skip: byte
    var npartial: byte

    /** The stream since the rate was set: its phase then, what came and what was
        passed on. */
    ghost var origin: int
    ghost var heard: seq<byte>
    ghost var played: seq<byte>

    /** Bytes between samples: one byte wide, as the field that counts them. */
    ghost function Gap(): (g: nat)
      reads `subsample
      requires subsample >= 1
    {
      MulNonNeg(align, subsample - 1);
      (align * (subsample - 1)) % 256
    }

    /** Where the stream stands. */
    ghost function Where(): (r: int)
      reads `skip, `npartial
    {
      if npartial > 0 then npartial else -(skip as int)
    }

    ghost predicate Ready()
      reads `skip, `npartial
    {
      1 <= align && npartial < align && (npartial > 0 ==> skip == 0)
    }

    /** What was passed on is what the stream keeps. */
    ghost predicate Valid()
      reads this
    {
      && Ready()
      && origin < align
      && (subsample != 0 ==>
            played == Kept(heard, origin, align, Gap()) && Where() == Phase(origin, |heard|, align, Gap()))
    }

    constructor (bytes: byte)
      requires bytes >= 1
      ensures Valid() && align == bytes && subsample == 0
    {
      align, subsample, skip, npartial := bytes, 0, 0, 0;
      origin, heard, played := 0, [], [];
    }

    /** The buffer has been read up to byte j of its content c. */
    ghost predicate Progress(samp: array<byte>, c: seq<byte>, r: int, j: nat, dest: nat, src: nat)
      reads this, samp
      requires subsample != 0
    {
      && Layout(samp, c, j, Kept(if j <= |c| then c[..j] else c, r, align, Gap()), dest, src)
      && Where() == Phase(r, j, align, Gap())
    }

    /** Skip what is left of the gap, or of the buffer. */
    method SkipSome(samp: array<byte>, srcsize: nat, dest: nat, src: nat, ghost c: seq<byte>, ghost r: int)
      returns (copysize: nat)
      requires Ready() && subsample != 0 && skip > 0 && 0 < srcsize <= |c|
      requires Progress(samp, c, r, |c| - srcsize, dest, src)
      modifies this`skip
      ensures Ready() && 0 < copysize <= srcsize
      ensures Progress(samp, c, r, |c| - srcsize + copysize, dest, src + copysize)
    {
      hide Decoder.Gap, Layout, Kept, Phase;
      copysize := if skip < srcsize then skip else srcsize;
      ghost var j := |c| - srcsize;
      KeptNext(c, j, copysize, r, align, Gap());
      Passed(samp, dest, src, copysize, c, j, Kept(c[..j], r, align, Gap()));
      skip := skip - copysize;
    }

    /** Copy a sample, or the part of it that the buffer holds. */
    method CopySome(samp: array<byte>, srcsize: nat, dest: nat, src: nat, gap: byte, ghost c: seq<byte>, ghost r: int)
      returns (copysize: nat)
      requires Ready() && subsample != 0 && skip == 0 && npartial == 0 && 0 < srcsize <= |c| && gap == Gap()
      requires Progress(samp, c, r, |c| - srcsize, dest, src)
      modifies this`skip, this`npartial, samp
      ensures Ready() && 0 < copysize <= srcsize && (npartial > 0 ==> copysize == srcsize)
      ensures Progress(samp, c, r, |c| - srcsize + copysize, dest + copysize, src + copysize)
    {
      hide Decoder.Gap, Layout, Kept, Phase;
      ghost var j := |c| - srcsize;
      if srcsize < align {
        copysize := srcsize;
        npartial := srcsize;
      } else {
        copysize := align;
        skip := gap;
      }
      KeptNext(c, j, copysize, r, align, Gap());
      Move(samp, dest, src, copysize, c, j, Kept(c[..j], r, align, Gap()));
    }

    /** The rest of a sample that the last buffer cut. */
    method FinishSample(samp: array<byte>, curbyte: nat, gap: byte, ghost c: seq<byte>) returns (copysize: nat)
      requires Ready() && subsample != 0 && npartial > 0 && align <= npartial + |c| && gap == Gap()
      requires Layout(samp, c, 0, [], 0, curbyte)
      modifies this`skip, this`npartial, samp
      ensures Ready() && npartial == 0 && copysize <= |c|
      ensures Progress(samp, c, old(Where()), copysize, copysize, curbyte + copysize)
    {
      hide Decoder.Gap, Kept, Phase, Layout;
      copysize := align - npartial;
      KeptNext(c, 0, copysize, npartial, align, Gap());
      NothingYet(c, npartial, align, Gap());
      assert [] + c[0..copysize] == c[..copysize];
      if curbyte > 0 {
        Move(samp, 0, curbyte, copysize, c, 0, []);
      } else {
        Stay(samp, copysize, c);
      }
      npartial := 0;
      skip := gap;
    }

    /** The loop over the rest of the buffer. */
    method Drain(samp: array<byte>, size: nat, to: nat, from: nat, gap: byte, ghost c: seq<byte>, ghost r: int)
      returns (dest: nat)
      requires Ready() && subsample != 0 && npartial == 0 && size <= |c| && gap == Gap()
      requires Progress(samp, c, r, |c| - size, to, from)
      modifies this`skip, this`npartial, samp
      ensures Ready() && dest <= samp.Length && samp[..dest] == Kept(c, r, align, Gap())
      ensures Where() == Phase(r, |c|, align, Gap())
    {
      hide Decoder.Gap, Layout, Kept, Phase, Decoder.Where;
      var srcsize, src := size, from;
      dest := to;
      while srcsize > 0
        invariant 0 <= srcsize <= |c| && Ready()
        invariant srcsize > 0 ==> npartial == 0
        invariant Progress(samp, c, r, |c| - srcsize, dest, src)
      {
        var copysize;
        if skip > 0 {
          copysize := SkipSome(samp, srcsize, dest, src, c, r);
        } else {
          copysize := CopySome(samp, srcsize, dest, src, gap, c, r);
          dest := dest + copysize;
        }
        src, srcsize := src + copysize, srcsize - copysize;
      }
      assert c[..|c|] == c;
      LayoutFits(samp, c, |c|, Kept(c, r, align, Gap()), dest, src);
    }

    /** A buffer that completes the sample before it, if one was cut. */
    method Squeeze(samp: array<byte>, curbyte: nat, nbytes: nat) returns (dest: nat)
      requires Ready() && subsample != 0 && curbyte <= nbytes <= samp.Length
      requires npartial > 0 ==> align <= npartial + nbytes - curbyte
      modifies this`skip, this`npartial, samp
      ensures Ready() && dest <= samp.Length
      ensures samp[..dest] == Kept(old(samp[curbyte..nbytes]), old(Where()), align, Gap())
      ensures Where() == Phase(old(Where()), nbytes - curbyte, align, Gap())
    {
      ghost var c, r := samp[curbyte..nbytes], Where();
      var src, size := curbyte, nbytes - curbyte;
      dest := 0;
      MulNonNeg(align, subsample - 1);
      var gap := (align * (subsample - 1)) % 256;
      assert gap == Gap();
      hide Layout, Kept, Phase, Decoder.Gap, Decoder.Where;
      Started(samp, curbyte, nbytes);
      NothingYet(c, r, align, Gap());
      if npartial > 0 {
        var copysize := FinishSample(samp, curbyte, gap, c);
        src, dest, size := src + copysize, copysize, size - copysize;
      }
      dest := Drain(samp, size, dest, src, gap, c, r);
    }

    /** pcm_subsample: what is left to play is what the stream keeps of the buffer;
        over all buffers since fast forward began, however the stream was cut, every
        n-th sample has been passed on and nothing else. */
    method Subsample(apb: AudioBuffer)
      requires Valid() && apb.Valid()
      modifies this`skip, this`npartial, this`heard, this`played, apb`curbyte, apb`nbytes, apb.samp
      ensures Valid() && apb.Valid()
      ensures subsample == 0 ==> apb.Content() == old(apb.Content()) && heard == old(heard) && played == old(played)
      ensures subsample != 0 ==> heard == old(heard) + old(apb.Content()) && played == old(played) + apb.Content()
      ensures subsample != 0 ==>
                played == ByPlace(heard, origin, align, align + (align * (subsample - 1)) % 256)
      ensures subsample != 0 && origin == 0 && align * (subsample - 1) <= 255 ==>
                played == EveryNth(heard, align, subsample)
    {
      hide Kept, Phase, ByPlace, EveryNth;
      if subsample == 0 {
        return;
      }
      ghost var c := apb.Content();
      StreamGrows(heard, c, origin, align, Gap());
      Squeezed(apb);
      heard, played := heard + c, played + apb.Content();
      KeptByPlace(heard, origin, align, Gap());
      StreamExact(heard, align, subsample);
    }

    /** One buffer of the stream. */
    method Squeezed(apb: AudioBuffer)
      requires Ready() && subsample != 0 && apb.Valid()
      modifies this`skip, this`npartial, apb`curbyte, apb`nbytes, apb.samp
      ensures Ready() && apb.Valid()
      ensures apb.Content() == Kept(old(apb.Content()), old(Where()), align, Gap())
      ensures Where() == Phase(old(Where()), |old(apb.Content())|, align, Gap())
    {
      hide Kept, Phase, Decoder.Gap;
      var srcsize := apb.nbytes - apb.curbyte;
      if npartial > 0 && npartial + srcsize < align {
        KeptRun(apb.Content(), npartial, align, Gap());
        npartial := npartial + srcsize;
        return;
      }
      var dest := Squeeze(apb.samp, apb.curbyte, apb.nbytes);
      apb.curbyte, apb.nbytes := 0, dest;
      assert apb.samp[0..dest] == apb.samp[..dest];
    }

    /** pcm_subsample_configure: starting and stopping begin a new stream; a new rate
        begins one in the middle of the sample or gap that the old rate left. */
    method Configure(rate: byte)
      requires Valid()
      modifies this`subsample, this`skip, this`npartial, this`origin, this`heard, this`played
      ensures Valid() && subsample == rate
      ensures rate == old(subsample) ==> heard == old(heard) && played == old(played) && origin == old(origin)
      ensures rate != old(subsample) ==> heard == [] && played == []
      ensures rate != old(subsample) ==>
                Where() == origin == if old(subsample) == 0 || rate == 0 then 0 else old(Where())
    {
      if subsample == 0 {
        if rate != 0 {
          npartial, skip, subsample := 0, 0, rate;
          origin, heard, played := 0, [], [];
        }
      } else if rate == 0 {
        npartial, skip, subsample := 0, 0, 0;
        origin, heard, played := 0, [], [];
      } else if subsample != rate {
        subsample := rate;
        origin, heard, played := Where(), [], [];
      }
    }
  }

  lemma StreamGrows(heard: seq<byte>, c: seq<byte>, r: int, a: nat, g: nat)
    ensures Kept(heard + c, r, a, g) == Kept(heard, r, a, g) + Kept(c, Phase(r, |heard|, a, g), a, g)
    ensures Phase(r, |heard + c|, a, g) == Phase(Phase(r, |heard|, a, g), |c|, a, g)
  {
    KeptConcat(heard, c, r, a, g);
    PhaseAdd(r, |heard|, |c|, a, g);
  }

  /** Every n-th sample of a bytes, by position. */
  function EveryNth(s: seq<byte>, a: nat, n: nat): (k: seq<byte>)
    requires a >= 1 && n >= 1
  {
    if |s| == 0 then []
    else EveryNth(s[..|s| - 1], a, n) + if ((|s| - 1) / a) % n == 0 then [s[|s| - 1]] else []
  }

  /** How many of the first m bytes are kept: a of every whole period, and what the
      last one has of its first sample. */
  function Count(m: nat, a: nat, t: nat): (c: nat)
    requires a >= 1 && t >= 1
  {
    DivNonNeg(m, t);
    MulNonNeg(a, m / t);
    a * (m / t) + if m % t < a then m % t else a
  }

  lemma CountIs(m: nat, a: nat, t: nat, q: nat, w: nat)
    requires 1 <= a <= t && m == t * q + w && w < t
    ensures Count(m, a, t) == a * q + if w < a then w else a
  {
    DivModUnique(m, t, q, w);
  }

  lemma CountNext(m: nat, a: nat, t: nat)
    requires 1 <= a <= t
    ensures Count(m + 1, a, t) == Count(m, a, t) + if m % t < a then 1 else 0
  {
    hide Count;
    var q, w := m / t, m % t;
    DivNonNeg(m, t);
    CountIs(m, a, t, q, w);
    if w + 1 == t {
      Distrib(t, q, 1);
      Distrib(a, q, 1);
      CountIs(m + 1, a, t, q + 1, 0);
    } else {
      CountIs(m + 1, a, t, q, w + 1);
    }
  }

  /** Where byte k of what is kept comes from: byte k % a of sample n * (k / a). */
  function From(k: nat, a: nat, n: nat): (m: int)
    requires a >= 1
  {
    a * (n * (k / a)) + k % a
  }

  lemma FromCount(m: nat, a: nat, n: nat, t: nat)
    requires 1 <= a <= t && t == a * n && m % t < a
    ensures From(Count(m, a, t), a, n) == m
  {
    hide Count;
    var q, w := m / t, m % t;
    DivNonNeg(m, t);
    CountIs(m, a, t, q, w);
    DivModUnique(Count(m, a, t), a, q, w);
    Assoc(a, n, q);
  }

  /** Which bytes are kept, by their places. */
  lemma EveryNthAt(s: seq<byte>, a: nat, n: nat, k: nat)
    requires a >= 1 && n >= 1
    ensures a * n >= 1 && |EveryNth(s, a, n)| == Count(|s|, a, a * n)
    ensures k < |EveryNth(s, a, n)| ==> 0 <= From(k, a, n) < |s| && EveryNth(s, a, n)[k] == s[From(k, a, n)]
  {
    hide Count, EveryNth, From;
    MulLe(a, 1, n);
    EveryNthPlaces(s, a, n, k, a * n);
  }

  lemma {:induction false} EveryNthPlaces(s: seq<byte>, a: nat, n: nat, k: nat, t: nat)
    requires 1 <= a <= t && n >= 1 && t == a * n
    ensures |EveryNth(s, a, n)| == Count(|s|, a, t)
    ensures k < |EveryNth(s, a, n)| ==> 0 <= From(k, a, n) < |s| && EveryNth(s, a, n)[k] == s[From(k, a, n)]
  {
    hide Count, From;
    if |s| == 0 {
      CountNone(a, t);
    } else {
      var m := |s| - 1;
      EveryNthPlaces(s[..m], a, n, k, t);
      CountNext(m, a, t);
      FirstOfPeriod(m, a, n);
      if m % t < a { FromCount(m, a, n, t); }
    }
  }

  lemma CountNone(a: nat, t: nat)
    requires 1 <= a <= t
    ensures Count(0, a, t) == 0
  {
    DivModUnique(0, t, 0, 0);
  }

  lemma NextRemainder(m: nat, t: nat)
    requires t >= 1
    ensures (m + 1) % t == if m % t + 1 == t then 0 else m % t + 1
  {
    var q, w := m / t, m % t;
    if w + 1 == t {
      Distrib(t, q, 1);
      DivModUnique(m + 1, t, q + 1, 0);
    } else {
      DivModUnique(m + 1, t, q, w + 1);
    }
  }

  /** The phase after m bytes, by the remainder of the place. */
  lemma {:induction false} PhaseIsRemainder(r: int, m: nat, a: nat, g: nat)
    requires a >= 1 && r < a
    ensures Phase(r, m, a, g)
         == if r + m < 0 then r + m
            else if (r + m) % (a + g) < a then (r + m) % (a + g)
            else (r + m) % (a + g) - (a + g)
  {
    if m == 0 {
      if r >= 0 { DivModUnique(r, a + g, 0, r); }
    } else {
      PhaseIsRemainder(r, m - 1, a, g);
      PhaseAdd(r, m - 1, 1, a, g);
      if r + m - 1 >= 0 { NextRemainder(r + m - 1, a + g); }
      assert Phase(Phase(r, m - 1, a, g), 1, a, g) == Next(Phase(r, m - 1, a, g), a, g);
    }
  }

  /** The bytes of a stream that begins at place r of a period of t bytes, the first a of
      each period, by position. */
  function ByPlace(s: seq<byte>, r: int, a: nat, t: nat): (k: seq<byte>)
    requires t >= 1
  {
    if |s| == 0 then []
    else
      var p := r + |s| - 1;
      ByPlace(s[..|s| - 1], r, a, t) + if p >= 0 && p % t < a then [s[|s| - 1]] else []
  }

  lemma {:induction false} KeptByPlace(s: seq<byte>, r: int, a: nat, g: nat)
    requires a >= 1 && r < a
    ensures Kept(s, r, a, g) == ByPlace(s, r, a, a + g)
  {
    if |s| != 0 {
      var m := |s| - 1;
      KeptByPlace(s[..m], r, a, g);
      assert s == s[..m] + [s[m]];
      KeptConcat(s[..m], [s[m]], r, a, g);
      PhaseIsRemainder(r, m, a, g);
      OneByte(s[m], Phase(r, m, a, g), a, g);
    }
  }

  /** The first a bytes of a period of n samples are its first sample. */
  lemma FirstOfPeriod(m: nat, a: nat, n: nat)
    requires a >= 1 && n >= 1 && a * n >= 1
    ensures m % (a * n) < a <==> (m / a) % n == 0
  {
    var t := a * n;
    var q, w := m / t, m % t;
    var u, v := w / a, w % a;
    DivNonNeg(m, t);
    DivNonNeg(w, a);
    Assoc(a, n, q);
    Distrib(a, n * q, u);
    DivModUnique(m, a, n * q + u, v);
    MulAtLeast(a, u - n);
    DistribSub(a, u, n);
    assert u < n;
    DivModUnique(n * q + u, n, q, u);
    MulAtLeast(a, u);
  }

  /** A gap of n - 1 samples keeps every n-th. */
  lemma {:induction false} KeepsEveryNth(s: seq<byte>, a: nat, n: nat)
    requires a >= 1 && n >= 1
    ensures a * (n - 1) >= 0 && Kept(s, 0, a, a * (n - 1)) == EveryNth(s, a, n)
  {
    MulNonNeg(a, n - 1);
    DistribSub(a, n, 1);
    if |s| != 0 {
      var m := |s| - 1;
      KeepsEveryNth(s[..m], a, n);
      assert s == s[..m] + [s[m]];
      KeptConcat(s[..m], [s[m]], 0, a, a * (n - 1));
      PhaseIsRemainder(0, m, a, a * (n - 1));
      FirstOfPeriod(m, a, n);
      OneByte(s[m], Phase(0, m, a, a * (n - 1)), a, a * (n - 1));
    }
  }

  /** A gap shorter than n - 1 samples: the byte behind it is played too soon. */
  lemma ShortGap(a: nat, n: nat, g: nat)
    requires a >= 1 && n >= 1 && a + g < a * n
    ensures exists s: seq<byte> :: Kept(s, 0, a, g) != EveryNth(s, a, n)
  {
    var x: byte, t := 0, a + g;
    var s: seq<byte>, u: seq<byte> := seq(t, _ => x), seq(t + 1, _ => x);
    assert u == s + [x];
    KeptConcat(s, [x], 0, a, g);
    PhaseIsRemainder(0, t, a, g);
    DivModUnique(t, t, 1, 0);
    OneByte(x, 0, a, g);
    DivModUnique(t, a * n, 0, t);
    FirstOfPeriod(t, a, n);
    assert u[..t] == s;
    assert EveryNth(u, a, n) == EveryNth(s, a, n);
    if Kept(s, 0, a, g) == EveryNth(s, a, n) {
      assert |Kept(u, 0, a, g)| == |EveryNth(u, a, n)| + 1;
    }
  }

  /** Every stream keeps every n-th sample exactly when the gap fits its byte. */
  lemma RateExact(a: nat, n: nat)
    requires a >= 1 && n >= 1
    ensures (forall s: seq<byte> :: Kept(s, 0, a, (a * (n - 1)) % 256) == EveryNth(s, a, n)) <==> a * (n - 1) <= 255
  {
    hide Kept, EveryNth;
    MulNonNeg(a, n - 1);
    DistribSub(a, n, 1);
    if a * (n - 1) <= 255 {
      forall s: seq<byte> ensures Kept(s, 0, a, (a * (n - 1)) % 256) == EveryNth(s, a, n) {
        KeepsEveryNth(s, a, n);
      }
    } else {
      ShortGap(a, n, (a * (n - 1)) % 256);
    }
  }

  lemma StreamExact(s: seq<byte>, a: nat, n: nat)
    requires a >= 1 && n >= 1
    ensures a * (n - 1) >= 0
    ensures a * (n - 1) <= 255 ==> Kept(s, 0, a, (a * (n - 1)) % 256) == EveryNth(s, a, n)
  {
    hide Kept, EveryNth;
    MulNonNeg(a, n - 1);
    RateExact(a, n);
  }

  lemma OneByte(x: byte, r: int, a: nat, g: nat)
    ensures Kept([x], r, a, g) == if r >= 0 then [x] else []
  {
  }

  lemma LayoutFits(samp: array<byte>, c: seq<byte>, j: nat, kept: seq<byte>, dest: nat, src: nat)
    requires Layout(samp, c, j, kept, dest, src)
    ensures dest <= samp.Length && samp[..dest] == kept
  {
  }

  lemma NothingYet(c: seq<byte>, r: int, a: nat, g: nat)
    ensures Kept(c[..0], r, a, g) == [] && Phase(r, 0, a, g) == r
  {
  }

  /** Bytes already at the bottom are kept where they are. */
  lemma Stay(samp: array<byte>, n: nat, c: seq<byte>)
    requires Layout(samp, c, 0, [], 0, 0) && n <= |c|
    ensures Layout(samp, c, n, c[..n], n, n)
  {
    assert samp[..n] == samp[0..|c|][..n];
    assert samp[n..|c|] == samp[0..|c|][n..];
  }

  lemma Started(samp: array<byte>, first: nat, end: nat)
    requires first <= end <= samp.Length
    ensures Layout(samp, samp[first..end], 0, [], 0, first)
  {
  }
}
