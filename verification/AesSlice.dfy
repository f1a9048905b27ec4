/** crypto/aes.c: the bitsliced state.  Eight words hold two blocks; bit k of the
    byte in row r and column c of block l is bit 8r + 2c + l of word k. */
module AesSlice {
  import opened AesByte

  datatype Words = Words(w0: bv32, w1: bv32, w2: bv32, w3: bv32, w4: bv32, w5: bv32, w6: bv32, w7: bv32)

  function Xor32(x: bv32, y: bv32): (r: bv32) { x ^ y }
  function And32(x: bv32, y: bv32): (r: bv32) { x & y }
  function Not32(x: bv32): (r: bv32) { !x }
  function Rotr8(x: bv32): (r: bv32) { (x >> 8) | (x << 24) }
  function Rotr16(x: bv32): (r: bv32) { (x << 16) | (x >> 16) }

  ghost predicate OneHot(m: bv32) { m != 0 && m & (m - 1) == 0 }

  /** The bit of x that the mask m picks. */
  ghost function Bit(x: bv32, m: bv32): (b: bv1) { if x & m != 0 then 1 else 0 }

  /** The byte whose bits m picks from the eight words. */
  ghost function Lane(q: Words, m: bv32): (b: Byte)
  {
    Byte(Bit(q.w0, m), Bit(q.w1, m), Bit(q.w2, m), Bit(q.w3, m), Bit(q.w4, m), Bit(q.w5, m), Bit(q.w6, m), Bit(q.w7, m))
  }

  /** Bit r + 8 of x is bit r of x rotated by eight. */
  ghost function Up(m: bv32): (r: bv32) { (m << 8) | (m >> 24) }

  /** Word gates act on every bit by themselves. */
  lemma Gates(m: bv32)
    requires OneHot(m)
    ensures forall x, y {:trigger Xor32(x, y)} :: Bit(Xor32(x, y), m) == Xor(Bit(x, m), Bit(y, m))
    ensures forall x, y {:trigger And32(x, y)} :: Bit(And32(x, y), m) == And(Bit(x, m), Bit(y, m))
    ensures forall x {:trigger Not32(x)} :: Bit(Not32(x), m) == Not(Bit(x, m))
  {
  }

  lemma Rotations(m: bv32)
    requires OneHot(m)
    ensures OneHot(Up(m))
    ensures forall x {:trigger Rotr8(x)} :: Bit(Rotr8(x), m) == Bit(x, Up(m))
    ensures forall x {:trigger Rotr16(x)} :: Bit(Rotr16(x), m) == Bit(x, Up(Up(m)))
  {
  }

  /** aes_ct_bitslice_sbox */
  function Sbox(q: Words): (r: Words)
  {
    var x0, x1, x2, x3, x4, x5, x6, x7 := q.w7, q.w6, q.w5, q.w4, q.w3, q.w2, q.w1, q.w0;
    var y14 := Xor32(x3, x5); var y13 := Xor32(x0, x6); var y9 := Xor32(x0, x3); var y8 := Xor32(x0, x5);
    var t0 := Xor32(x1, x2); var y1 := Xor32(t0, x7); var y4 := Xor32(y1, x3); var y12 := Xor32(y13, y14);
    var y2 := Xor32(y1, x0); var y5 := Xor32(y1, x6); var y3 := Xor32(y5, y8); var t1 := Xor32(x4, y12);
    var y15 := Xor32(t1, x5); var y20 := Xor32(t1, x1); var y6 := Xor32(y15, x7); var y10 := Xor32(y15, t0);
    var y11 := Xor32(y20, y9); var y7 := Xor32(x7, y11); var y17 := Xor32(y10, y11); var y19 := Xor32(y10, y8);
    var y16 := Xor32(t0, y11); var y21 := Xor32(y13, y16); var y18 := Xor32(x0, y16); var t2 := And32(y12, y15);
    var t3 := And32(y3, y6); var t4 := Xor32(t3, t2); var t5 := And32(y4, x7); var t6 := Xor32(t5, t2);
    var t7 := And32(y13, y16); var t8 := And32(y5, y1); var t9 := Xor32(t8, t7); var t10 := And32(y2, y7);
    var t11 := Xor32(t10, t7); var t12 := And32(y9, y11); var t13 := And32(y14, y17); var t14 := Xor32(t13, t12);
    var t15 := And32(y8, y10); var t16 := Xor32(t15, t12); var t17 := Xor32(t4, t14); var t18 := Xor32(t6, t16);
    var t19 := Xor32(t9, t14); var t20 := Xor32(t11, t16); var t21 := Xor32(t17, y20); var t22 := Xor32(t18, y19);
    var t23 := Xor32(t19, y21); var t24 := Xor32(t20, y18); var t25 := Xor32(t21, t22); var t26 := And32(t21, t23);
    var t27 := Xor32(t24, t26); var t28 := And32(t25, t27); var t29 := Xor32(t28, t22); var t30 := Xor32(t23, t24);
    var t31 := Xor32(t22, t26); var t32 := And32(t31, t30); var t33 := Xor32(t32, t24); var t34 := Xor32(t23, t33);
    var t35 := Xor32(t27, t33); var t36 := And32(t24, t35); var t37 := Xor32(t36, t34); var t38 := Xor32(t27, t36);
    var t39 := And32(t29, t38); var t40 := Xor32(t25, t39); var t41 := Xor32(t40, t37); var t42 := Xor32(t29, t33);
    var t43 := Xor32(t29, t40); var t44 := Xor32(t33, t37); var t45 := Xor32(t42, t41); var z0 := And32(t44, y15);
    var z1 := And32(t37, y6); var z2 := And32(t33, x7); var z3 := And32(t43, y16); var z4 := And32(t40, y1);
    var z5 := And32(t29, y7); var z6 := And32(t42, y11); var z7 := And32(t45, y17); var z8 := And32(t41, y10);
    var z9 := And32(t44, y12); var z10 := And32(t37, y3); var z11 := And32(t33, y4); var z12 := And32(t43, y13);
    var z13 := And32(t40, y5); var z14 := And32(t29, y2); var z15 := And32(t42, y9); var z16 := And32(t45, y14);
    var z17 := And32(t41, y8); var t46 := Xor32(z15, z16); var t47 := Xor32(z10, z11); var t48 := Xor32(z5, z13);
    var t49 := Xor32(z9, z10); var t50 := Xor32(z2, z12); var t51 := Xor32(z2, z5); var t52 := Xor32(z7, z8);
    var t53 := Xor32(z0, z3); var t54 := Xor32(z6, z7); var t55 := Xor32(z16, z17); var t56 := Xor32(z12, t48);
    var t57 := Xor32(t50, t53); var t58 := Xor32(z4, t46); var t59 := Xor32(z3, t54); var t60 := Xor32(t46, t57);
    var t61 := Xor32(z14, t57); var t62 := Xor32(t52, t58); var t63 := Xor32(t49, t58); var t64 := Xor32(z4, t59);
    var t65 := Xor32(t61, t62); var t66 := Xor32(z1, t63); var s0 := Xor32(t59, t63); var s6 := Xor32(t56, Not32(t62));
    var s7 := Xor32(t48, Not32(t60)); var t67 := Xor32(t64, t65); var s3 := Xor32(t53, t66); var s4 := Xor32(t51, t66);
    var s5 := Xor32(t47, t65); var s1 := Xor32(t64, Not32(s3)); var s2 := Xor32(t55, Not32(t67));
    Words(s7, s6, s5, s4, s3, s2, s1, s0)
  }

  function UnaffineWords(q: Words): (r: Words)
  {
    var q0, q1, q2, q3, q4, q5, q6, q7 := Not32(q.w0), Not32(q.w1), q.w2, q.w3, q.w4, Not32(q.w5), Not32(q.w6), q.w7;
    Words(Xor32(Xor32(q2, q5), q7), Xor32(Xor32(q3, q6), q0), Xor32(Xor32(q4, q7), q1), Xor32(Xor32(q5, q0), q2),
          Xor32(Xor32(q6, q1), q3), Xor32(Xor32(q7, q2), q4), Xor32(Xor32(q0, q3), q5), Xor32(Xor32(q1, q4), q6))
  }

  /** aes_ct_bitslice_invsbox */
  function InvSbox(q: Words): (r: Words)
  {
    UnaffineWords(Sbox(UnaffineWords(q)))
  }

  /** add_round_key */
  function AddWords(x: Words, y: Words): (r: Words)
  {
    Words(Xor32(x.w0, y.w0), Xor32(x.w1, y.w1), Xor32(x.w2, y.w2), Xor32(x.w3, y.w3),
          Xor32(x.w4, y.w4), Xor32(x.w5, y.w5), Xor32(x.w6, y.w6), Xor32(x.w7, y.w7))
  }

  function XtimeWords(x: Words): (r: Words)
  {
    Words(x.w7, Xor32(x.w0, x.w7), x.w1, Xor32(x.w2, x.w7), Xor32(x.w3, x.w7), x.w4, x.w5, x.w6)
  }

  function Times3Words(x: Words): (r: Words)
  {
    Words(Xor32(x.w7, x.w0), Xor32(Xor32(x.w0, x.w7), x.w1), Xor32(x.w1, x.w2), Xor32(Xor32(x.w2, x.w7), x.w3),
          Xor32(Xor32(x.w3, x.w7), x.w4), Xor32(x.w4, x.w5), Xor32(x.w5, x.w6), Xor32(x.w6, x.w7))
  }

  function Times14Words(x: Words): (r: Words)
  {
    Words(Xor32(Xor32(x.w5, x.w6), x.w7), Xor32(x.w0, x.w5), Xor32(Xor32(x.w0, x.w1), x.w6),
          Xor32(Xor32(Xor32(Xor32(x.w0, x.w1), x.w2), x.w5), x.w6), Xor32(Xor32(Xor32(x.w1, x.w2), x.w3), x.w5),
          Xor32(Xor32(Xor32(x.w2, x.w3), x.w4), x.w6), Xor32(Xor32(Xor32(x.w3, x.w4), x.w5), x.w7),
          Xor32(Xor32(x.w4, x.w5), x.w6))
  }

  function Times11Words(x: Words): (r: Words)
  {
    Words(Xor32(Xor32(x.w0, x.w5), x.w7), Xor32(Xor32(Xor32(Xor32(x.w0, x.w1), x.w5), x.w6), x.w7),
          Xor32(Xor32(Xor32(x.w1, x.w2), x.w6), x.w7), Xor32(Xor32(Xor32(x.w0, x.w2), x.w3), x.w5),
          Xor32(Xor32(Xor32(Xor32(Xor32(x.w1, x.w3), x.w4), x.w5), x.w6), x.w7),
          Xor32(Xor32(Xor32(Xor32(x.w2, x.w4), x.w5), x.w6), x.w7), Xor32(Xor32(Xor32(x.w3, x.w5), x.w6), x.w7),
          Xor32(Xor32(x.w4, x.w6), x.w7))
  }

  function Times13Words(x: Words): (r: Words)
  {
    Words(Xor32(Xor32(x.w0, x.w5), x.w6), Xor32(Xor32(x.w1, x.w5), x.w7), Xor32(Xor32(x.w0, x.w2), x.w6),
          Xor32(Xor32(Xor32(Xor32(Xor32(x.w0, x.w1), x.w3), x.w5), x.w6), x.w7),
          Xor32(Xor32(Xor32(Xor32(x.w1, x.w2), x.w4), x.w5), x.w7), Xor32(Xor32(Xor32(x.w2, x.w3), x.w5), x.w6),
          Xor32(Xor32(Xor32(x.w3, x.w4), x.w6), x.w7), Xor32(Xor32(x.w4, x.w5), x.w7))
  }

  function Times9Words(x: Words): (r: Words)
  {
    Words(Xor32(x.w0, x.w5), Xor32(Xor32(x.w1, x.w5), x.w6), Xor32(Xor32(x.w2, x.w6), x.w7),
          Xor32(Xor32(Xor32(x.w0, x.w3), x.w5), x.w7), Xor32(Xor32(Xor32(x.w1, x.w4), x.w5), x.w6),
          Xor32(Xor32(Xor32(x.w2, x.w5), x.w6), x.w7), Xor32(Xor32(x.w3, x.w6), x.w7), Xor32(x.w4, x.w7))
  }

  function RotateWords(x: Words): (r: Words)
  {
    Words(Rotr8(x.w0), Rotr8(x.w1), Rotr8(x.w2), Rotr8(x.w3), Rotr8(x.w4), Rotr8(x.w5), Rotr8(x.w6), Rotr8(x.w7))
  }

  function HalfTurn(x: Words): (r: Words)
  {
    Words(Rotr16(x.w0), Rotr16(x.w1), Rotr16(x.w2), Rotr16(x.w3),
          Rotr16(x.w4), Rotr16(x.w5), Rotr16(x.w6), Rotr16(x.w7))
  }

  /** Exclusive or from left to right. */
  function Xor3(x: bv32, y: bv32, z: bv32): (r: bv32) { Xor32(Xor32(x, y), z) }
  function Xor4(w: bv32, x: bv32, y: bv32, z: bv32): (r: bv32) { Xor32(Xor3(w, x, y), z) }
  function Xor5(v: bv32, w: bv32, x: bv32, y: bv32, z: bv32): (r: bv32) { Xor32(Xor4(v, w, x, y), z) }

  /** mix_columns */
  function Mix(q: Words): (r: Words)
  {
    var q0, q1, q2, q3, q4, q5, q6, q7 := q.w0, q.w1, q.w2, q.w3, q.w4, q.w5, q.w6, q.w7;
    var r0, r1, r2, r3 := Rotr8(q0), Rotr8(q1), Rotr8(q2), Rotr8(q3);
    var r4, r5, r6, r7 := Rotr8(q4), Rotr8(q5), Rotr8(q6), Rotr8(q7);
    Words(Xor4(q7, r7, r0, Rotr16(Xor32(q0, r0))),
          Xor32(Xor5(q0, r0, q7, r7, r1), Rotr16(Xor32(q1, r1))),
          Xor4(q1, r1, r2, Rotr16(Xor32(q2, r2))),
          Xor32(Xor5(q2, r2, q7, r7, r3), Rotr16(Xor32(q3, r3))),
          Xor32(Xor5(q3, r3, q7, r7, r4), Rotr16(Xor32(q4, r4))),
          Xor4(q4, r4, r5, Rotr16(Xor32(q5, r5))),
          Xor4(q5, r5, r6, Rotr16(Xor32(q6, r6))),
          Xor4(q6, r6, r7, Rotr16(Xor32(q7, r7))))
  }

  /** inv_mix_columns */
  function InvMix(q: Words): (r: Words)
  {
    var q0, q1, q2, q3, q4, q5, q6, q7 := q.w0, q.w1, q.w2, q.w3, q.w4, q.w5, q.w6, q.w7;
    var r0, r1, r2, r3 := Rotr8(q0), Rotr8(q1), Rotr8(q2), Rotr8(q3);
    var r4, r5, r6, r7 := Rotr8(q4), Rotr8(q5), Rotr8(q6), Rotr8(q7);
    Words(Xor3(Xor5(q5, q6, q7, r0, r5), r7, Rotr16(Xor5(q0, q5, q6, r0, r5))),
          Xor4(Xor5(q0, q5, r0, r1, r5), r6, r7, Rotr16(Xor32(Xor5(q1, q5, q7, r1, r5), r6))),
          Xor4(Xor5(q0, q1, q6, r1, r2), r6, r7, Rotr16(Xor32(Xor5(q0, q2, q6, r2, r6), r7))),
          Xor32(Xor5(Xor5(q0, q1, q2, q5, q6), r0, r2, r3, r5),
            Rotr16(Xor32(Xor5(Xor5(q0, q1, q3, q5, q6), q7, r0, r3, r5), r7))),
          Xor3(Xor5(Xor5(q1, q2, q3, q5, r1), r3, r4, r5, r6), r7,
            Rotr16(Xor5(Xor5(q1, q2, q4, q5, q7), r1, r4, r5, r6))),
          Xor32(Xor5(Xor5(q2, q3, q4, q6, r2), r4, r5, r6, r7), Rotr16(Xor4(Xor5(q2, q3, q5, q6, r2), r5, r6, r7))),
          Xor5(Xor5(q3, q4, q5, q7, r3), r5, r6, r7, Rotr16(Xor3(Xor5(q3, q4, q6, q7, r3), r6, r7))),
          Xor3(Xor5(q4, q5, q6, r4, r6), r7, Rotr16(Xor5(q4, q5, q7, r4, r7))))
  }

  /** The same terms grouped by where they come from. */
  function MixGroups(q: Words): (r: Words)
  {
    var t := RotateWords(q);
    AddWords(AddWords(XtimeWords(q), Times3Words(t)), HalfTurn(AddWords(q, t)))
  }

  function InvMixGroups(q: Words): (r: Words)
  {
    var t := RotateWords(q);
    AddWords(AddWords(Times14Words(q), Times11Words(t)), HalfTurn(AddWords(Times13Words(q), Times9Words(t))))
  }

  lemma SboxLane(q: Words, m: bv32)
    requires OneHot(m)
    ensures Lane(Sbox(q), m) == SubByte(Lane(q, m))
  {
    hide Xor32, And32, Not32, Xor, And, Not, Bit, OneHot;
    Gates(m);
  }

  lemma InvSboxLane(q: Words, m: bv32)
    requires OneHot(m)
    ensures Lane(InvSbox(q), m) == InvSubByte(Lane(q, m))
  {
    hide Xor32, And32, Not32, Xor, And, Not, Bit, OneHot, Sbox, SubByte;
    Gates(m);
    SboxLane(UnaffineWords(q), m);
  }

  lemma AddLane(x: Words, y: Words, m: bv32)
    requires OneHot(m)
    ensures Lane(AddWords(x, y), m) == Add(Lane(x, m), Lane(y, m))
  {
    hide Xor32, Xor, Bit, OneHot;
    Gates(m);
  }

  lemma MultiplesLane(q: Words, m: bv32)
    requires OneHot(m)
    ensures Lane(XtimeWords(q), m) == Xtime(Lane(q, m))
    ensures Lane(Times3Words(q), m) == Times3(Lane(q, m))
    ensures Lane(Times14Words(q), m) == Times14(Lane(q, m))
    ensures Lane(Times11Words(q), m) == Times11(Lane(q, m))
    ensures Lane(Times13Words(q), m) == Times13(Lane(q, m))
    ensures Lane(Times9Words(q), m) == Times9(Lane(q, m))
  {
    hide Xor32, Xor, Bit, OneHot;
    Gates(m);
  }

  lemma TurnLane(q: Words, m: bv32)
    requires OneHot(m)
    ensures OneHot(Up(m))
    ensures Lane(RotateWords(q), m) == Lane(q, Up(m))
    ensures Lane(HalfTurn(q), m) == Lane(q, Up(Up(m)))
  {
    hide Rotr8, Rotr16, Bit, OneHot, Up;
    Rotations(m);
  }

  /** Mixing takes each byte from itself and the three below it. */
  lemma MixGroupsLane(q: Words, m: bv32)
    requires OneHot(m)
    ensures Lane(MixGroups(q), m) == MixByte(Lane(q, m), Lane(q, Up(m)), Lane(q, Up(Up(m))), Lane(q, Up(Up(Up(m)))))
  {
    hide Lane, AddWords, XtimeWords, Times3Words, RotateWords, HalfTurn, Add, Xtime, Times3, Up, OneHot;
    var t := RotateWords(q);
    TurnLane(q, m);
    TurnLane(q, Up(m));
    TurnLane(q, Up(Up(m)));
    TurnLane(AddWords(q, t), m);
    MultiplesLane(q, m);
    MultiplesLane(t, m);
    AddLane(q, t, Up(Up(m)));
    AddLane(XtimeWords(q), Times3Words(t), m);
    AddLane(AddWords(XtimeWords(q), Times3Words(t)), HalfTurn(AddWords(q, t)), m);
  }

  lemma InvMixGroupsLane(q: Words, m: bv32)
    requires OneHot(m)
    ensures Lane(InvMixGroups(q), m)
         == InvMixByte(Lane(q, m), Lane(q, Up(m)), Lane(q, Up(Up(m))), Lane(q, Up(Up(Up(m)))))
  {
    hide Lane, AddWords, Times9Words, Times11Words, Times13Words, Times14Words, RotateWords, HalfTurn;
    hide Add, Times9, Times11, Times13, Times14, Up, OneHot;
    var t := RotateWords(q);
    TurnLane(q, m);
    TurnLane(q, Up(m));
    TurnLane(q, Up(Up(m)));
    TurnLane(AddWords(Times13Words(q), Times9Words(t)), m);
    MultiplesLane(q, m);
    MultiplesLane(t, m);
    MultiplesLane(q, Up(Up(m)));
    MultiplesLane(t, Up(Up(m)));
    AddLane(Times13Words(q), Times9Words(t), Up(Up(m)));
    AddLane(Times14Words(q), Times11Words(t), m);
    AddLane(AddWords(Times14Words(q), Times11Words(t)), HalfTurn(AddWords(Times13Words(q), Times9Words(t))), m);
  }

  lemma Assoc32(x: bv32, y: bv32, z: bv32)
    ensures Xor32(x, Xor32(y, z)) == Xor3(x, y, z)
  {
  }

  lemma Commute32(x: bv32, y: bv32)
    ensures Xor32(x, y) == Xor32(y, x)
  {
  }

  lemma Append3(a: bv32, x: bv32, y: bv32, z: bv32)
    ensures Xor32(a, Xor3(x, y, z)) == Xor4(a, x, y, z)
  {
    hide Xor32;
    Assoc32(a, Xor32(x, y), z);
    Assoc32(a, x, y);
  }

  lemma Append4(a: bv32, w: bv32, x: bv32, y: bv32, z: bv32)
    ensures Xor32(a, Xor4(w, x, y, z)) == Xor5(a, w, x, y, z)
  {
    hide Xor32;
    Assoc32(a, Xor3(w, x, y), z);
    Append3(a, w, x, y);
  }

  lemma Append5(a: bv32, v: bv32, w: bv32, x: bv32, y: bv32, z: bv32)
    ensures Xor32(a, Xor5(v, w, x, y, z)) == Xor32(Xor5(a, v, w, x, y), z)
  {
    hide Xor32;
    Assoc32(a, Xor4(v, w, x, y), z);
    Append4(a, v, w, x, y);
  }

  lemma Append6(a: bv32, u: bv32, v: bv32, w: bv32, x: bv32, y: bv32, z: bv32)
    ensures Xor32(a, Xor32(Xor5(u, v, w, x, y), z)) == Xor3(Xor5(a, u, v, w, x), y, z)
  {
    hide Xor32;
    Assoc32(a, Xor5(u, v, w, x, y), z);
    Append5(a, u, v, w, x, y);
  }

  lemma Alternate(a: bv32, b: bv32, c: bv32, d: bv32, e: bv32)
    ensures Xor5(a, b, c, d, e) == Xor32(Xor32(a, c), Xor3(b, d, e))
  {
    hide Xor32;
    Assoc32(a, b, c);
    Commute32(b, c);
    Assoc32(a, c, b);
    Append3(Xor32(a, c), b, d, e);
  }

  /** The grouping changes no word. */
  lemma MixRegroup(q: Words)
    ensures Mix(q) == MixGroups(q)
  {
    hide Xor32, Rotr8, Rotr16;
    var q0, q1, q2, q3, q4, q5, q6, q7 := q.w0, q.w1, q.w2, q.w3, q.w4, q.w5, q.w6, q.w7;
    var r0, r1, r2, r3 := Rotr8(q0), Rotr8(q1), Rotr8(q2), Rotr8(q3);
    var r4, r5, r6, r7 := Rotr8(q4), Rotr8(q5), Rotr8(q6), Rotr8(q7);
    Assoc32(q7, r7, r0);
    Alternate(q0, r0, q7, r7, r1);
    Assoc32(q1, r1, r2);
    Alternate(q2, r2, q7, r7, r3);
    Alternate(q3, r3, q7, r7, r4);
    Assoc32(q4, r4, r5);
    Assoc32(q5, r5, r6);
    Assoc32(q6, r6, r7);
  }

  lemma InvMixRegroup(q: Words)
    ensures InvMix(q) == InvMixGroups(q)
  {
    hide Xor32, Rotr8, Rotr16;
    var q0, q1, q2, q3, q4, q5, q6, q7 := q.w0, q.w1, q.w2, q.w3, q.w4, q.w5, q.w6, q.w7;
    var r0, r1, r2, r3 := Rotr8(q0), Rotr8(q1), Rotr8(q2), Rotr8(q3);
    var r4, r5, r6, r7 := Rotr8(q4), Rotr8(q5), Rotr8(q6), Rotr8(q7);
    Append3(Xor3(q5, q6, q7), r0, r5, r7);
    Assoc32(Xor3(q0, q5, q6), r0, r5);
    Append5(Xor32(q0, q5), r0, r1, r5, r6, r7);
    Append3(Xor3(q1, q5, q7), r1, r5, r6);
    Append4(Xor3(q0, q1, q6), r1, r2, r6, r7);
    Append3(Xor3(q0, q2, q6), r2, r6, r7);
    Append4(Xor5(q0, q1, q2, q5, q6), r0, r2, r3, r5);
    Append4(Xor32(Xor5(q0, q1, q3, q5, q6), q7), r0, r3, r5, r7);
    Append6(Xor4(q1, q2, q3, q5), r1, r3, r4, r5, r6, r7);
    Append4(Xor5(q1, q2, q4, q5, q7), r1, r4, r5, r6);
    Append5(Xor4(q2, q3, q4, q6), r2, r4, r5, r6, r7);
    Append4(Xor4(q2, q3, q5, q6), r2, r5, r6, r7);
    Append4(Xor4(q3, q4, q5, q7), r3, r5, r6, r7);
    Append3(Xor4(q3, q4, q6, q7), r3, r6, r7);
    Append3(Xor3(q4, q5, q6), r4, r6, r7);
    Assoc32(Xor3(q4, q5, q7), r4, r7);
  }

  lemma MixLane(q: Words, m: bv32)
    requires OneHot(m)
    ensures Lane(Mix(q), m) == MixByte(Lane(q, m), Lane(q, Up(m)), Lane(q, Up(Up(m))), Lane(q, Up(Up(Up(m)))))
  {
    hide *;
    MixRegroup(q);
    MixGroupsLane(q, m);
  }

  lemma InvMixLane(q: Words, m: bv32)
    requires OneHot(m)
    ensures Lane(InvMix(q), m) == InvMixByte(Lane(q, m), Lane(q, Up(m)), Lane(q, Up(Up(m))), Lane(q, Up(Up(Up(m)))))
  {
    hide *;
    InvMixRegroup(q);
    InvMixGroupsLane(q, m);
  }
}
