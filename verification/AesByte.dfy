/** Bytes as polynomials over GF(2), bit by bit: the byte transformations of FIPS
    197, with the S-box given by the circuit of crypto/aes.c. */
module AesByte {
  function Xor(x: bv1, y: bv1): (r: bv1) { x ^ y }
  function And(x: bv1, y: bv1): (r: bv1) { x & y }
  function Not(x: bv1): (r: bv1) { !x }

  datatype Byte = Byte(b0: bv1, b1: bv1, b2: bv1, b3: bv1, b4: bv1, b5: bv1, b6: bv1, b7: bv1)

  const ZERO := Byte(0, 0, 0, 0, 0, 0, 0, 0)
  const ONE := Byte(1, 0, 0, 0, 0, 0, 0, 0)

  function Add(x: Byte, y: Byte): (r: Byte)
  {
    Byte(Xor(x.b0, y.b0), Xor(x.b1, y.b1), Xor(x.b2, y.b2), Xor(x.b3, y.b3),
         Xor(x.b4, y.b4), Xor(x.b5, y.b5), Xor(x.b6, y.b6), Xor(x.b7, y.b7))
  }

  /** Times x, modulo x^8 + x^4 + x^3 + x + 1. */
  function Xtime(x: Byte): (r: Byte)
  {
    Byte(x.b7, Xor(x.b0, x.b7), x.b1, Xor(x.b2, x.b7), Xor(x.b3, x.b7), x.b4, x.b5, x.b6)
  }

  /** The constant multiples of mix_columns and inv_mix_columns, as bit tables. */
  function Times3(x: Byte): (r: Byte)
  {
    Byte(Xor(x.b7, x.b0), Xor(Xor(x.b0, x.b7), x.b1), Xor(x.b1, x.b2), Xor(Xor(x.b2, x.b7), x.b3),
         Xor(Xor(x.b3, x.b7), x.b4), Xor(x.b4, x.b5), Xor(x.b5, x.b6), Xor(x.b6, x.b7))
  }

  function Times14(x: Byte): (r: Byte)
  {
    Byte(Xor(Xor(x.b5, x.b6), x.b7), Xor(x.b0, x.b5), Xor(Xor(x.b0, x.b1), x.b6),
         Xor(Xor(Xor(Xor(x.b0, x.b1), x.b2), x.b5), x.b6), Xor(Xor(Xor(x.b1, x.b2), x.b3), x.b5),
         Xor(Xor(Xor(x.b2, x.b3), x.b4), x.b6), Xor(Xor(Xor(x.b3, x.b4), x.b5), x.b7),
         Xor(Xor(x.b4, x.b5), x.b6))
  }

  function Times11(x: Byte): (r: Byte)
  {
    Byte(Xor(Xor(x.b0, x.b5), x.b7), Xor(Xor(Xor(Xor(x.b0, x.b1), x.b5), x.b6), x.b7),
         Xor(Xor(Xor(x.b1, x.b2), x.b6), x.b7), Xor(Xor(Xor(x.b0, x.b2), x.b3), x.b5),
         Xor(Xor(Xor(Xor(Xor(x.b1, x.b3), x.b4), x.b5), x.b6), x.b7),
         Xor(Xor(Xor(Xor(x.b2, x.b4), x.b5), x.b6), x.b7), Xor(Xor(Xor(x.b3, x.b5), x.b6), x.b7),
         Xor(Xor(x.b4, x.b6), x.b7))
  }

  function Times13(x: Byte): (r: Byte)
  {
    Byte(Xor(Xor(x.b0, x.b5), x.b6), Xor(Xor(x.b1, x.b5), x.b7), Xor(Xor(x.b0, x.b2), x.b6),
         Xor(Xor(Xor(Xor(Xor(x.b0, x.b1), x.b3), x.b5), x.b6), x.b7),
         Xor(Xor(Xor(Xor(x.b1, x.b2), x.b4), x.b5), x.b7), Xor(Xor(Xor(x.b2, x.b3), x.b5), x.b6),
         Xor(Xor(Xor(x.b3, x.b4), x.b6), x.b7), Xor(Xor(x.b4, x.b5), x.b7))
  }

  function Times9(x: Byte): (r: Byte)
  {
    Byte(Xor(x.b0, x.b5), Xor(Xor(x.b1, x.b5), x.b6), Xor(Xor(x.b2, x.b6), x.b7),
         Xor(Xor(Xor(x.b0, x.b3), x.b5), x.b7), Xor(Xor(Xor(x.b1, x.b4), x.b5), x.b6),
         Xor(Xor(Xor(x.b2, x.b5), x.b6), x.b7), Xor(Xor(x.b3, x.b6), x.b7), Xor(x.b4, x.b7))
  }

  /** The multiples are those of FIPS 197, sections 4.2.1, 5.1.3 and 5.3.3. */
  lemma Multiples(x: Byte)
    ensures Times3(x) == Add(Xtime(x), x)
    ensures Times9(x) == Add(Xtime(Xtime(Xtime(x))), x)
  {
    assert x.b7 == 0 || x.b7 == 1;
  }

  lemma MultiplesOfNine(x: Byte)
    ensures Times11(x) == Add(Times9(x), Xtime(x))
    ensures Times13(x) == Add(Times9(x), Xtime(Xtime(x)))
  {
    assert x.b7 == 0 || x.b7 == 1;
  }

  lemma MultipleFourteen(x: Byte)
    ensures Times14(x) == Add(Times13(x), Times3(x))
  {
    assert x.b7 == 0 || x.b7 == 1;
  }

  /** One byte of a mixed column, from itself and the three below it. */
  function MixByte(a: Byte, b: Byte, c: Byte, d: Byte): (r: Byte)
  {
    Add(Add(Xtime(a), Times3(b)), Add(c, d))
  }

  function InvMixByte(a: Byte, b: Byte, c: Byte, d: Byte): (r: Byte)
  {
    Add(Add(Times14(a), Times11(b)), Add(Times13(c), Times9(d)))
  }

  lemma Interchange(w: Byte, x: Byte, y: Byte, z: Byte)
    ensures Add(Add(w, x), Add(y, z)) == Add(Add(w, y), Add(x, z))
  {
  }

  lemma AddZero(x: Byte)
    ensures Add(x, ZERO) == x && Add(x, x) == ZERO
  {
  }

  lemma XtimeAdd(x: Byte, y: Byte)
    ensures Xtime(Add(x, y)) == Add(Xtime(x), Xtime(y))
  {
  }

  /** Multiplication by a constant is additive. */
  lemma MultiplesAdd(x: Byte, y: Byte)
    ensures Times3(Add(x, y)) == Add(Times3(x), Times3(y))
    ensures Times9(Add(x, y)) == Add(Times9(x), Times9(y))
    ensures Times11(Add(x, y)) == Add(Times11(x), Times11(y))
    ensures Times13(Add(x, y)) == Add(Times13(x), Times13(y))
    ensures Times14(Add(x, y)) == Add(Times14(x), Times14(y))
  {
    hide Add, Xtime, Times3, Times9, Times11, Times13, Times14;
    var x1, y1 := Xtime(x), Xtime(y);
    var x2, y2 := Xtime(x1), Xtime(y1);
    Multiples(x);
    Multiples(y);
    Multiples(Add(x, y));
    MultiplesOfNine(x);
    MultiplesOfNine(y);
    MultiplesOfNine(Add(x, y));
    MultipleFourteen(x);
    MultipleFourteen(y);
    MultipleFourteen(Add(x, y));
    XtimeAdd(x, y);
    XtimeAdd(x1, y1);
    XtimeAdd(x2, y2);
    Interchange(x1, y1, x, y);
    Interchange(Xtime(x2), Xtime(y2), x, y);
    Interchange(Times9(x), Times9(y), x1, y1);
    Interchange(Times9(x), Times9(y), x2, y2);
    Interchange(Times13(x), Times13(y), Times3(x), Times3(y));
  }

  /** The product of the two column polynomials is one, coefficient by coefficient. */
  lemma CoefficientOfSelf(a: Byte)
    ensures Add(Add(Times14(Xtime(a)), Times11(a)), Add(Times13(a), Times9(Times3(a)))) == a
  {
    assert a.b7 == 0 || a.b7 == 1;
  }

  lemma CoefficientOfNext(a: Byte)
    ensures Add(Add(Times14(Times3(a)), Times11(Xtime(a))), Add(Times13(a), Times9(a))) == ZERO
  {
    assert a.b7 == 0 || a.b7 == 1;
  }

  lemma CoefficientOfThird(a: Byte)
    ensures Add(Add(Times14(a), Times11(Times3(a))), Add(Times13(Xtime(a)), Times9(a))) == ZERO
  {
    assert a.b7 == 0 || a.b7 == 1;
  }

  lemma CoefficientOfLast(a: Byte)
    ensures Add(Add(Times14(a), Times11(a)), Add(Times13(Times3(a)), Times9(Xtime(a)))) == ZERO
  {
    assert a.b7 == 0 || a.b7 == 1;
  }

  lemma Commute(x: Byte, y: Byte)
    ensures Add(x, y) == Add(y, x)
  {
  }

  lemma Rotate(w: Byte, x: Byte, y: Byte, z: Byte)
    ensures Add(Add(w, x), Add(y, z)) == Add(Add(z, w), Add(x, y))
  {
    hide Add;
    Commute(y, z);
    Interchange(w, x, z, y);
    Commute(w, z);
  }

  /** A sum by rows is the sum by columns. */
  lemma Transpose(a1: Byte, b1: Byte, c1: Byte, d1: Byte, a2: Byte, b2: Byte, c2: Byte, d2: Byte,
                  a3: Byte, b3: Byte, c3: Byte, d3: Byte, a4: Byte, b4: Byte, c4: Byte, d4: Byte)
    ensures Add(Add(Add(Add(a1, b1), Add(c1, d1)), Add(Add(a2, b2), Add(c2, d2))),
                Add(Add(Add(a3, b3), Add(c3, d3)), Add(Add(a4, b4), Add(c4, d4))))
         == Add(Add(Add(Add(a1, a2), Add(a3, a4)), Add(Add(b1, b2), Add(b3, b4))),
                Add(Add(Add(c1, c2), Add(c3, c4)), Add(Add(d1, d2), Add(d3, d4))))
  {
    hide Add;
    Interchange(Add(a1, b1), Add(c1, d1), Add(a2, b2), Add(c2, d2));
    Interchange(a1, b1, a2, b2);
    Interchange(c1, d1, c2, d2);
    Interchange(Add(a3, b3), Add(c3, d3), Add(a4, b4), Add(c4, d4));
    Interchange(a3, b3, a4, b4);
    Interchange(c3, d3, c4, d4);
    var a12, b12, c12, d12 := Add(a1, a2), Add(b1, b2), Add(c1, c2), Add(d1, d2);
    var a34, b34, c34, d34 := Add(a3, a4), Add(b3, b4), Add(c3, c4), Add(d3, d4);
    Interchange(Add(a12, b12), Add(c12, d12), Add(a34, b34), Add(c34, d34));
    Interchange(a12, b12, a34, b34);
    Interchange(c12, d12, c34, d34);
  }

  /** Unmixing a mixed column gives the column back. */
  lemma MixUndo(a: Byte, b: Byte, c: Byte, d: Byte)
    ensures InvMixByte(MixByte(a, b, c, d), MixByte(b, c, d, a), MixByte(c, d, a, b), MixByte(d, a, b, c)) == a
  {
    hide Add, Xtime, Times3, Times9, Times11, Times13, Times14;
    MultiplesAdd(Add(Xtime(a), Times3(b)), Add(c, d));
    MultiplesAdd(Xtime(a), Times3(b));
    MultiplesAdd(c, d);
    MultiplesAdd(Add(Xtime(b), Times3(c)), Add(d, a));
    MultiplesAdd(Xtime(b), Times3(c));
    MultiplesAdd(d, a);
    MultiplesAdd(Add(Xtime(c), Times3(d)), Add(a, b));
    MultiplesAdd(Xtime(c), Times3(d));
    MultiplesAdd(a, b);
    MultiplesAdd(Add(Xtime(d), Times3(a)), Add(b, c));
    MultiplesAdd(Xtime(d), Times3(a));
    MultiplesAdd(b, c);
    Rotate(Times11(Xtime(b)), Times11(Times3(c)), Times11(d), Times11(a));
    Commute(Add(Times13(Xtime(c)), Times13(Times3(d))), Add(Times13(a), Times13(b)));
    Rotate(Times9(Times3(a)), Times9(b), Times9(c), Times9(Xtime(d)));
    Transpose(Times14(Xtime(a)), Times14(Times3(b)), Times14(c), Times14(d),
              Times11(a), Times11(Xtime(b)), Times11(Times3(c)), Times11(d),
              Times13(a), Times13(b), Times13(Xtime(c)), Times13(Times3(d)),
              Times9(Times3(a)), Times9(b), Times9(c), Times9(Xtime(d)));
    CoefficientOfSelf(a);
    CoefficientOfNext(b);
    CoefficientOfThird(c);
    CoefficientOfLast(d);
    AddZero(a);
    AddZero(ZERO);
  }

  /** The same product the other way round. */
  lemma RemixSelf(a: Byte)
    ensures Add(Add(Xtime(Times14(a)), Times3(Times9(a))), Add(Times13(a), Times11(a))) == a
  {
    assert a.b7 == 0 || a.b7 == 1;
  }

  lemma RemixNext(a: Byte)
    ensures Add(Add(Xtime(Times11(a)), Times3(Times14(a))), Add(Times9(a), Times13(a))) == ZERO
  {
    assert a.b7 == 0 || a.b7 == 1;
  }

  lemma RemixThird(a: Byte)
    ensures Add(Add(Xtime(Times13(a)), Times3(Times11(a))), Add(Times14(a), Times9(a))) == ZERO
  {
    assert a.b7 == 0 || a.b7 == 1;
  }

  lemma RemixLast(a: Byte)
    ensures Add(Add(Xtime(Times9(a)), Times3(Times13(a))), Add(Times11(a), Times14(a))) == ZERO
  {
    assert a.b7 == 0 || a.b7 == 1;
  }

  /** Mixing an unmixed column gives the column back. */
  lemma MixRedo(a: Byte, b: Byte, c: Byte, d: Byte)
    ensures MixByte(InvMixByte(a, b, c, d), InvMixByte(b, c, d, a), InvMixByte(c, d, a, b), InvMixByte(d, a, b, c)) == a
  {
    hide Add, Xtime, Times3, Times9, Times11, Times13, Times14;
    XtimeAdd(Add(Times14(a), Times11(b)), Add(Times13(c), Times9(d)));
    XtimeAdd(Times14(a), Times11(b));
    XtimeAdd(Times13(c), Times9(d));
    MultiplesAdd(Add(Times14(b), Times11(c)), Add(Times13(d), Times9(a)));
    MultiplesAdd(Times14(b), Times11(c));
    MultiplesAdd(Times13(d), Times9(a));
    Rotate(Times3(Times14(b)), Times3(Times11(c)), Times3(Times13(d)), Times3(Times9(a)));
    Commute(Add(Times14(c), Times11(d)), Add(Times13(a), Times9(b)));
    Rotate(Times11(a), Times13(b), Times9(c), Times14(d));
    Transpose(Xtime(Times14(a)), Xtime(Times11(b)), Xtime(Times13(c)), Xtime(Times9(d)),
              Times3(Times9(a)), Times3(Times14(b)), Times3(Times11(c)), Times3(Times13(d)),
              Times13(a), Times9(b), Times14(c), Times11(d),
              Times11(a), Times13(b), Times9(c), Times14(d));
    RemixSelf(a);
    RemixNext(b);
    RemixThird(c);
    RemixLast(d);
    AddZero(a);
    AddZero(ZERO);
  }

  /** aes_ct_bitslice_sbox on the bits of one byte. */
  function SubByte(q: Byte): (r: Byte)
  {
    var x0, x1, x2, x3, x4, x5, x6, x7 := q.b7, q.b6, q.b5, q.b4, q.b3, q.b2, q.b1, q.b0;
    var y14 := Xor(x3, x5); var y13 := Xor(x0, x6); var y9 := Xor(x0, x3); var y8 := Xor(x0, x5);
    var t0 := Xor(x1, x2); var y1 := Xor(t0, x7); var y4 := Xor(y1, x3); var y12 := Xor(y13, y14);
    var y2 := Xor(y1, x0); var y5 := Xor(y1, x6); var y3 := Xor(y5, y8); var t1 := Xor(x4, y12);
    var y15 := Xor(t1, x5); var y20 := Xor(t1, x1); var y6 := Xor(y15, x7); var y10 := Xor(y15, t0);
    var y11 := Xor(y20, y9); var y7 := Xor(x7, y11); var y17 := Xor(y10, y11); var y19 := Xor(y10, y8);
    var y16 := Xor(t0, y11); var y21 := Xor(y13, y16); var y18 := Xor(x0, y16); var t2 := And(y12, y15);
    var t3 := And(y3, y6); var t4 := Xor(t3, t2); var t5 := And(y4, x7); var t6 := Xor(t5, t2);
    var t7 := And(y13, y16); var t8 := And(y5, y1); var t9 := Xor(t8, t7); var t10 := And(y2, y7);
    var t11 := Xor(t10, t7); var t12 := And(y9, y11); var t13 := And(y14, y17); var t14 := Xor(t13, t12);
    var t15 := And(y8, y10); var t16 := Xor(t15, t12); var t17 := Xor(t4, t14); var t18 := Xor(t6, t16);
    var t19 := Xor(t9, t14); var t20 := Xor(t11, t16); var t21 := Xor(t17, y20); var t22 := Xor(t18, y19);
    var t23 := Xor(t19, y21); var t24 := Xor(t20, y18); var t25 := Xor(t21, t22); var t26 := And(t21, t23);
    var t27 := Xor(t24, t26); var t28 := And(t25, t27); var t29 := Xor(t28, t22); var t30 := Xor(t23, t24);
    var t31 := Xor(t22, t26); var t32 := And(t31, t30); var t33 := Xor(t32, t24); var t34 := Xor(t23, t33);
    var t35 := Xor(t27, t33); var t36 := And(t24, t35); var t37 := Xor(t36, t34); var t38 := Xor(t27, t36);
    var t39 := And(t29, t38); var t40 := Xor(t25, t39); var t41 := Xor(t40, t37); var t42 := Xor(t29, t33);
    var t43 := Xor(t29, t40); var t44 := Xor(t33, t37); var t45 := Xor(t42, t41); var z0 := And(t44, y15);
    var z1 := And(t37, y6); var z2 := And(t33, x7); var z3 := And(t43, y16); var z4 := And(t40, y1);
    var z5 := And(t29, y7); var z6 := And(t42, y11); var z7 := And(t45, y17); var z8 := And(t41, y10);
    var z9 := And(t44, y12); var z10 := And(t37, y3); var z11 := And(t33, y4); var z12 := And(t43, y13);
    var z13 := And(t40, y5); var z14 := And(t29, y2); var z15 := And(t42, y9); var z16 := And(t45, y14);
    var z17 := And(t41, y8); var t46 := Xor(z15, z16); var t47 := Xor(z10, z11); var t48 := Xor(z5, z13);
    var t49 := Xor(z9, z10); var t50 := Xor(z2, z12); var t51 := Xor(z2, z5); var t52 := Xor(z7, z8);
    var t53 := Xor(z0, z3); var t54 := Xor(z6, z7); var t55 := Xor(z16, z17); var t56 := Xor(z12, t48);
    var t57 := Xor(t50, t53); var t58 := Xor(z4, t46); var t59 := Xor(z3, t54); var t60 := Xor(t46, t57);
    var t61 := Xor(z14, t57); var t62 := Xor(t52, t58); var t63 := Xor(t49, t58); var t64 := Xor(z4, t59);
    var t65 := Xor(t61, t62); var t66 := Xor(z1, t63); var s0 := Xor(t59, t63); var s6 := Xor(t56, Not(t62));
    var s7 := Xor(t48, Not(t60)); var t67 := Xor(t64, t65); var s3 := Xor(t53, t66); var s4 := Xor(t51, t66);
    var s5 := Xor(t47, t65); var s1 := Xor(t64, Not(s3)); var s2 := Xor(t55, Not(t67));
    Byte(s7, s6, s5, s4, s3, s2, s1, s0)
  }

  /** The transformation around the S-box in aes_ct_bitslice_invsbox. */
  function Unaffine(q: Byte): (r: Byte)
  {
    var q0, q1, q2, q3, q4, q5, q6, q7 := Not(q.b0), Not(q.b1), q.b2, q.b3, q.b4, Not(q.b5), Not(q.b6), q.b7;
    Byte(Xor(Xor(q2, q5), q7), Xor(Xor(q3, q6), q0), Xor(Xor(q4, q7), q1), Xor(Xor(q5, q0), q2),
         Xor(Xor(q6, q1), q3), Xor(Xor(q7, q2), q4), Xor(Xor(q0, q3), q5), Xor(Xor(q1, q4), q6))
  }

  function InvSubByte(q: Byte): (r: Byte)
  {
    Unaffine(SubByte(Unaffine(q)))
  }

  lemma SubUndoEven(x: Byte)
    requires x.b0 == 0
    ensures InvSubByte(SubByte(x)) == x
  {
    assert x.b1 == 0 || x.b1 == 1;
  }

  lemma SubUndoOdd(x: Byte)
    requires x.b0 == 1
    ensures InvSubByte(SubByte(x)) == x
  {
    assert x.b1 == 0 || x.b1 == 1;
  }

  /** The inverse S-box circuit undoes the S-box circuit. */
  lemma SubUndo(x: Byte)
    ensures InvSubByte(SubByte(x)) == x
  {
    hide InvSubByte, SubByte;
    if x.b0 == 0 {
      SubUndoEven(x);
    } else {
      SubUndoOdd(x);
    }
  }

  /** Equation 5.1 of FIPS 197. */
  function Affine(x: Byte): (r: Byte)
  {
    Byte(Not(Xor(Xor(Xor(Xor(x.b0, x.b4), x.b5), x.b6), x.b7)), Not(Xor(Xor(Xor(Xor(x.b1, x.b5), x.b6), x.b7), x.b0)),
         Xor(Xor(Xor(Xor(x.b2, x.b6), x.b7), x.b0), x.b1), Xor(Xor(Xor(Xor(x.b3, x.b7), x.b0), x.b1), x.b2),
         Xor(Xor(Xor(Xor(x.b4, x.b0), x.b1), x.b2), x.b3), Not(Xor(Xor(Xor(Xor(x.b5, x.b1), x.b2), x.b3), x.b4)),
         Not(Xor(Xor(Xor(Xor(x.b6, x.b2), x.b3), x.b4), x.b5)), Xor(Xor(Xor(Xor(x.b7, x.b3), x.b4), x.b5), x.b6))
  }

  function Scale(x: Byte, k: bv1): (r: Byte)
  {
    Byte(And(x.b0, k), And(x.b1, k), And(x.b2, k), And(x.b3, k), And(x.b4, k), And(x.b5, k), And(x.b6, k), And(x.b7, k))
  }

  /** Multiplication in GF(2^8), section 4.2 of FIPS 197. */
  function Mul(x: Byte, y: Byte): (r: Byte)
  {
    var m6 := Add(Xtime(Scale(x, y.b7)), Scale(x, y.b6));
    var m5 := Add(Xtime(m6), Scale(x, y.b5));
    var m4 := Add(Xtime(m5), Scale(x, y.b4));
    var m3 := Add(Xtime(m4), Scale(x, y.b3));
    var m2 := Add(Xtime(m3), Scale(x, y.b2));
    var m1 := Add(Xtime(m2), Scale(x, y.b1));
    Add(Xtime(m1), Scale(x, y.b0))
  }

  lemma AffineUndo(x: Byte)
    ensures Affine(Unaffine(x)) == x
  {
    assert x.b0 == 0 || x.b0 == 1;
  }

  ghost predicate Inverses(x: Byte, y: Byte)
  {
    if x == ZERO then y == ZERO else Mul(x, y) == ONE
  }

  lemma Inverse00(x: Byte)
    requires x.b0 == 0 && x.b1 == 0
    ensures Inverses(x, Unaffine(SubByte(x)))
  {
    assert x.b2 == 0 || x.b2 == 1;
  }

  lemma Inverse01(x: Byte)
    requires x.b0 == 0 && x.b1 == 1
    ensures Inverses(x, Unaffine(SubByte(x)))
  {
    assert x.b2 == 0 || x.b2 == 1;
  }

  lemma Inverse10(x: Byte)
    requires x.b0 == 1 && x.b1 == 0
    ensures Inverses(x, Unaffine(SubByte(x)))
  {
    assert x.b2 == 0 || x.b2 == 1;
  }

  lemma Inverse11(x: Byte)
    requires x.b0 == 1 && x.b1 == 1
    ensures Inverses(x, Unaffine(SubByte(x)))
  {
    assert x.b2 == 0 || x.b2 == 1;
  }

  /** The S-box circuit undoes the inverse S-box circuit. */
  lemma SubRedo(x: Byte)
    ensures SubByte(InvSubByte(x)) == x
  {
    hide Unaffine, SubByte, Affine;
    SubUndo(Unaffine(x));
    AffineUndo(SubByte(InvSubByte(x)));
    AffineUndo(x);
  }

  /** The circuit is the S-box of FIPS 197, section 5.1.1: the affine
      transformation of the multiplicative inverse, zero standing for itself. */
  lemma SubByteIsInverse(x: Byte)
    ensures exists y :: Inverses(x, y) && SubByte(x) == Affine(y)
  {
    hide Unaffine, SubByte, Affine, Inverses;
    AffineUndo(SubByte(x));
    if x.b0 == 0 {
      if x.b1 == 0 { Inverse00(x); } else { Inverse01(x); }
    } else {
      if x.b1 == 0 { Inverse10(x); } else { Inverse11(x); }
    }
  }
}
