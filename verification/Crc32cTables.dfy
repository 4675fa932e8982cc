/** The tables of CRC32C (section 12.1 of RFC 3720) that the portable code uses.  Each is linear, so eight of its
    entries determine it; with them the stride tables are proved to do what sixteen steps of the byte table do. */
module Crc32cTables {
  import opened Crc32c

  predicate Has(b: bv8, bit: bv8) {
    b & bit != 0
  }

  function Pick(b: bv8, bit: bv8, r: Word): Word {
    if Has(b, bit) then r else 0
  }

  /** The linear table that has these entries at 1, 2, 4, ... 128. */
  function Spread(b: bv8, r0: Word, r1: Word, r2: Word, r3: Word, r4: Word, r5: Word, r6: Word, r7: Word): Word {
    Xor(Xor(Xor(Pick(b, 1, r0), Pick(b, 2, r1)), Xor(Pick(b, 4, r2), Pick(b, 8, r3))),
        Xor(Xor(Pick(b, 16, r4), Pick(b, 32, r5)), Xor(Pick(b, 64, r6), Pick(b, 128, r7))))
  }

  function ByteTable(b: bv8): Word {
    Spread(b, 0xf26b_8303, 0xe13b_70f7, 0xc79a_971f, 0x8ad9_58cf,
           0x105e_c76f, 0x20bd_8ede, 0x417b_1dbc, 0x82f6_3b78)
  }

  function Stride0(b: bv8): Word {
    Spread(b, 0x30d2_3865, 0x61a4_70ca, 0xc348_e194, 0x837d_b5d9,
           0x0317_1d43, 0x062e_3a86, 0x0c5c_750c, 0x18b8_ea18)
  }

  function Stride1(b: bv8): Word {
    Spread(b, 0x5407_5546, 0xa80e_aa8c, 0x55f1_23e9, 0xabe2_47d2,
           0x5228_f955, 0xa451_f2aa, 0x4d4f_93a5, 0x9a9f_274a)
  }

  function Stride2(b: bv8): Word {
    Spread(b, 0x678e_fd01, 0xcf1d_fa02, 0x9bd7_82f5, 0x3243_731b,
           0x6486_e636, 0xc90d_cc6c, 0x97f7_ee29, 0x2a03_aaa3)
  }

  function Stride3(b: bv8): Word {
    Spread(b, 0xf20c_0dfe, 0xe1f4_6d0d, 0xc604_aceb, 0x89e5_2f27,
           0x1626_28bf, 0x2c4c_517e, 0x5898_a2fc, 0xb131_45f8)
  }

  const TABLES: Tables := Tables(ByteTable, Stride0, Stride1, Stride2, Stride3)

  predicate Bit(bit: bv8) {
    bit & (bit - 1) == 0
  }

  lemma BitOfXor(a: bv8, b: bv8, bit: bv8)
    requires Bit(bit)
    ensures Has(Xor8(a, b), bit) <==> Has(a, bit) != Has(b, bit)
  {
  }

  lemma PickLinear(a: bv8, b: bv8, bit: bv8, r: Word)
    requires Bit(bit)
    ensures Pick(Xor8(a, b), bit, r) == Xor(Pick(a, bit, r), Pick(b, bit, r))
  {
    hide Xor, Xor8, Has;
    BitOfXor(a, b, bit);
    XorCancels(r, 0);
    XorCancels(0, 0);
    XorSelf(r);
  }

  lemma PowersAreBits()
    ensures Bit(1) && Bit(2) && Bit(4) && Bit(8) && Bit(16) && Bit(32) && Bit(64) && Bit(128)
  {
  }

  lemma SpreadLinear(a: bv8, b: bv8, r0: Word, r1: Word, r2: Word, r3: Word, r4: Word, r5: Word, r6: Word, r7: Word)
    ensures Spread(Xor8(a, b), r0, r1, r2, r3, r4, r5, r6, r7) ==
            Xor(Spread(a, r0, r1, r2, r3, r4, r5, r6, r7), Spread(b, r0, r1, r2, r3, r4, r5, r6, r7))
  {
    hide Xor, Xor8, Pick, Bit;
    PowersAreBits();
    PickLinear(a, b, 1, r0);
    PickLinear(a, b, 2, r1);
    PickLinear(a, b, 4, r2);
    PickLinear(a, b, 8, r3);
    PickLinear(a, b, 16, r4);
    PickLinear(a, b, 32, r5);
    PickLinear(a, b, 64, r6);
    PickLinear(a, b, 128, r7);
    Xor4(Pick(a, 1, r0), Pick(b, 1, r0), Pick(a, 2, r1), Pick(b, 2, r1));
    Xor4(Pick(a, 4, r2), Pick(b, 4, r2), Pick(a, 8, r3), Pick(b, 8, r3));
    Xor4(Pick(a, 16, r4), Pick(b, 16, r4), Pick(a, 32, r5), Pick(b, 32, r5));
    Xor4(Pick(a, 64, r6), Pick(b, 64, r6), Pick(a, 128, r7), Pick(b, 128, r7));
    Xor4(Xor(Pick(a, 1, r0), Pick(a, 2, r1)), Xor(Pick(b, 1, r0), Pick(b, 2, r1)),
         Xor(Pick(a, 4, r2), Pick(a, 8, r3)), Xor(Pick(b, 4, r2), Pick(b, 8, r3)));
    Xor4(Xor(Pick(a, 16, r4), Pick(a, 32, r5)), Xor(Pick(b, 16, r4), Pick(b, 32, r5)),
         Xor(Pick(a, 64, r6), Pick(a, 128, r7)), Xor(Pick(b, 64, r6), Pick(b, 128, r7)));
    Xor4(Xor(Xor(Pick(a, 1, r0), Pick(a, 2, r1)), Xor(Pick(a, 4, r2), Pick(a, 8, r3))),
         Xor(Xor(Pick(b, 1, r0), Pick(b, 2, r1)), Xor(Pick(b, 4, r2), Pick(b, 8, r3))),
         Xor(Xor(Pick(a, 16, r4), Pick(a, 32, r5)), Xor(Pick(a, 64, r6), Pick(a, 128, r7))),
         Xor(Xor(Pick(b, 16, r4), Pick(b, 32, r5)), Xor(Pick(b, 64, r6), Pick(b, 128, r7))));
  }

  lemma ByteTableLinear()
    ensures Linear(ByteTable)
  {
    hide Spread, Xor, Xor8;
    forall a, b
      ensures ByteTable(Xor8(a, b)) == Xor(ByteTable(a), ByteTable(b))
    {
      SpreadLinear(a, b, 0xf26b_8303, 0xe13b_70f7, 0xc79a_971f, 0x8ad9_58cf, 0x105e_c76f, 0x20bd_8ede, 0x417b_1dbc,
                   0x82f6_3b78);
    }
  }

  // ---- sixteen bytes on ----

  lemma OneMore(l: Word, n: nat, at: Word, next: Word)
    requires Advances(ByteTable, l, n) == at && Advance(ByteTable, at) == next
    ensures Advances(ByteTable, l, n + 1) == next
  {
    hide Advance;
    AdvancesAdd(ByteTable, l, n, 1);
    assert Advances(ByteTable, Advance(ByteTable, at), 0) == next;
  }

  lemma OneLess(l: Word, n: nat, next: Word)
    requires Advance(ByteTable, l) == next
    ensures Advances(ByteTable, l, n + 1) == Advances(ByteTable, next, n)
  {
    hide Advance;
  }

  lemma NoneYet(l: Word)
    ensures Advances(ByteTable, l, 0) == l
  {
  }

  /** What bit 0 of each byte of a word becomes after 16 bytes. */
  lemma Entries0()
    ensures Advances(ByteTable, 0x0000_0001, 16) == 0xf20c_0dfe
    ensures Advances(ByteTable, 0x0000_0100, 16) == 0x678e_fd01
    ensures Advances(ByteTable, 0x0001_0000, 16) == 0x5407_5546
    ensures Advances(ByteTable, 0x0100_0000, 16) == 0x30d2_3865
  {
    hide Advances;
    NoneYet(0x0000_0001);
    OneMore(0x0000_0001, 0, 0x0000_0001, 0xf26b_8303);
    OneMore(0x0000_0001, 1, 0xf26b_8303, 0x13a2_9877);
    OneMore(0x0000_0001, 2, 0x13a2_9877, 0xa541_927e);
    OneMore(0x0000_0001, 3, 0xa541_927e, 0xdd45_aab8);
    OneMore(0x0000_0001, 4, 0xdd45_aab8, 0x3811_6fac);
    OneMore(0x0000_0001, 5, 0x3811_6fac, 0xef30_6b19);
    OneMore(0x0000_0001, 6, 0xef30_6b19, 0x6803_2cc8);
    OneMore(0x0000_0001, 7, 0x6803_2cc8, 0x493c_7d27);
    OneMore(0x0000_0001, 8, 0x493c_7d27, 0xf43e_d648);
    OneMore(0x0000_0001, 9, 0xf43e_d648, 0xcb56_7ba5);
    OneMore(0x0000_0001, 10, 0xcb56_7ba5, 0x9771_f7c1);
    OneMore(0x0000_0001, 11, 0x9771_f7c1, 0x3171_d430);
    OneMore(0x0000_0001, 12, 0x3171_d430, 0x30d2_3865);
    OneMore(0x0000_0001, 13, 0x30d2_3865, 0x5407_5546);
    OneMore(0x0000_0001, 14, 0x5407_5546, 0x678e_fd01);
    OneMore(0x0000_0001, 15, 0x678e_fd01, 0xf20c_0dfe);
    OneLess(0x0000_0100, 15, 0x0000_0001);
    OneLess(0x0001_0000, 15, 0x0000_0100);
    OneLess(0x0000_0100, 14, 0x0000_0001);
    OneLess(0x0100_0000, 15, 0x0001_0000);
    OneLess(0x0001_0000, 14, 0x0000_0100);
    OneLess(0x0000_0100, 13, 0x0000_0001);
  }

  /** What bit 1 of each byte of a word becomes after 16 bytes. */
  lemma Entries1()
    ensures Advances(ByteTable, 0x0000_0002, 16) == 0xe1f4_6d0d
    ensures Advances(ByteTable, 0x0000_0200, 16) == 0xcf1d_fa02
    ensures Advances(ByteTable, 0x0002_0000, 16) == 0xa80e_aa8c
    ensures Advances(ByteTable, 0x0200_0000, 16) == 0x61a4_70ca
  {
    hide Advances;
    NoneYet(0x0000_0002);
    OneMore(0x0000_0002, 0, 0x0000_0002, 0xe13b_70f7);
    OneMore(0x0000_0002, 1, 0xe13b_70f7, 0x2745_30ee);
    OneMore(0x0000_0002, 2, 0x2745_30ee, 0x4f6f_520d);
    OneMore(0x0000_0002, 3, 0x4f6f_520d, 0xbf67_2381);
    OneMore(0x0000_0002, 4, 0xbf67_2381, 0x7022_df58);
    OneMore(0x0000_0002, 5, 0x7022_df58, 0xdb8c_a0c3);
    OneMore(0x0000_0002, 6, 0xdb8c_a0c3, 0xd006_5990);
    OneMore(0x0000_0002, 7, 0xd006_5990, 0x9278_fa4e);
    OneMore(0x0000_0002, 8, 0x9278_fa4e, 0xed91_da61);
    OneMore(0x0000_0002, 9, 0xed91_da61, 0x9340_81bb);
    OneMore(0x0000_0002, 10, 0x9340_81bb, 0x2b0f_9973);
    OneMore(0x0000_0002, 11, 0x2b0f_9973, 0x62e3_a860);
    OneMore(0x0000_0002, 12, 0x62e3_a860, 0x61a4_70ca);
    OneMore(0x0000_0002, 13, 0x61a4_70ca, 0xa80e_aa8c);
    OneMore(0x0000_0002, 14, 0xa80e_aa8c, 0xcf1d_fa02);
    OneMore(0x0000_0002, 15, 0xcf1d_fa02, 0xe1f4_6d0d);
    OneLess(0x0000_0200, 15, 0x0000_0002);
    OneLess(0x0002_0000, 15, 0x0000_0200);
    OneLess(0x0000_0200, 14, 0x0000_0002);
    OneLess(0x0200_0000, 15, 0x0002_0000);
    OneLess(0x0002_0000, 14, 0x0000_0200);
    OneLess(0x0000_0200, 13, 0x0000_0002);
  }

  /** What bit 2 of each byte of a word becomes after 16 bytes. */
  lemma Entries2()
    ensures Advances(ByteTable, 0x0000_0004, 16) == 0xc604_aceb
    ensures Advances(ByteTable, 0x0000_0400, 16) == 0x9bd7_82f5
    ensures Advances(ByteTable, 0x0004_0000, 16) == 0x55f1_23e9
    ensures Advances(ByteTable, 0x0400_0000, 16) == 0xc348_e194
  {
    hide Advances;
    NoneYet(0x0000_0004);
    OneMore(0x0000_0004, 0, 0x0000_0004, 0xc79a_971f);
    OneMore(0x0000_0004, 1, 0xc79a_971f, 0x4e8a_61dc);
    OneMore(0x0000_0004, 2, 0x4e8a_61dc, 0x9ede_a41a);
    OneMore(0x0000_0004, 3, 0x9ede_a41a, 0x7b22_31f3);
    OneMore(0x0000_0004, 4, 0x7b22_31f3, 0xe045_beb0);
    OneMore(0x0000_0004, 5, 0xe045_beb0, 0xb2f5_3777);
    OneMore(0x0000_0004, 6, 0xb2f5_3777, 0xa5e0_c5d1);
    OneMore(0x0000_0004, 7, 0xa5e0_c5d1, 0x211d_826d);
    OneMore(0x0000_0004, 8, 0x211d_826d, 0xdecf_c233);
    OneMore(0x0000_0004, 9, 0xdecf_c233, 0x236d_7587);
    OneMore(0x0000_0004, 10, 0x236d_7587, 0x561f_32e6);
    OneMore(0x0000_0004, 11, 0x561f_32e6, 0xc5c7_50c0);
    OneMore(0x0000_0004, 12, 0xc5c7_50c0, 0xc348_e194);
    OneMore(0x0000_0004, 13, 0xc348_e194, 0x55f1_23e9);
    OneMore(0x0000_0004, 14, 0x55f1_23e9, 0x9bd7_82f5);
    OneMore(0x0000_0004, 15, 0x9bd7_82f5, 0xc604_aceb);
    OneLess(0x0000_0400, 15, 0x0000_0004);
    OneLess(0x0004_0000, 15, 0x0000_0400);
    OneLess(0x0000_0400, 14, 0x0000_0004);
    OneLess(0x0400_0000, 15, 0x0004_0000);
    OneLess(0x0004_0000, 14, 0x0000_0400);
    OneLess(0x0000_0400, 13, 0x0000_0004);
  }

  /** What bit 3 of each byte of a word becomes after 16 bytes. */
  lemma Entries3()
    ensures Advances(ByteTable, 0x0000_0008, 16) == 0x89e5_2f27
    ensures Advances(ByteTable, 0x0000_0800, 16) == 0x3243_731b
    ensures Advances(ByteTable, 0x0008_0000, 16) == 0xabe2_47d2
    ensures Advances(ByteTable, 0x0800_0000, 16) == 0x837d_b5d9
  {
    hide Advances;
    NoneYet(0x0000_0008);
    OneMore(0x0000_0008, 0, 0x0000_0008, 0x8ad9_58cf);
    OneMore(0x0000_0008, 1, 0x8ad9_58cf, 0x9d14_c3b8);
    OneMore(0x0000_0008, 2, 0x9d14_c3b8, 0x3851_3ec5);
    OneMore(0x0000_0008, 3, 0x3851_3ec5, 0xf644_63e6);
    OneMore(0x0000_0008, 4, 0xf644_63e6, 0xc567_0b91);
    OneMore(0x0000_0008, 5, 0xc567_0b91, 0x6006_181f);
    OneMore(0x0000_0008, 6, 0x6006_181f, 0x4e2d_fd53);
    OneMore(0x0000_0008, 7, 0x4e2d_fd53, 0x423b_04da);
    OneMore(0x0000_0008, 8, 0x423b_04da, 0xb873_f297);
    OneMore(0x0000_0008, 9, 0xb873_f297, 0x46da_eb0e);
    OneMore(0x0000_0008, 10, 0x46da_eb0e, 0xac3e_65cc);
    OneMore(0x0000_0008, 11, 0xac3e_65cc, 0x8e62_d771);
    OneMore(0x0000_0008, 12, 0x8e62_d771, 0x837d_b5d9);
    OneMore(0x0000_0008, 13, 0x837d_b5d9, 0xabe2_47d2);
    OneMore(0x0000_0008, 14, 0xabe2_47d2, 0x3243_731b);
    OneMore(0x0000_0008, 15, 0x3243_731b, 0x89e5_2f27);
    OneLess(0x0000_0800, 15, 0x0000_0008);
    OneLess(0x0008_0000, 15, 0x0000_0800);
    OneLess(0x0000_0800, 14, 0x0000_0008);
    OneLess(0x0800_0000, 15, 0x0008_0000);
    OneLess(0x0008_0000, 14, 0x0000_0800);
    OneLess(0x0000_0800, 13, 0x0000_0008);
  }

  /** What bit 4 of each byte of a word becomes after 16 bytes. */
  lemma Entries4()
    ensures Advances(ByteTable, 0x0000_0010, 16) == 0x1626_28bf
    ensures Advances(ByteTable, 0x0000_1000, 16) == 0x6486_e636
    ensures Advances(ByteTable, 0x0010_0000, 16) == 0x5228_f955
    ensures Advances(ByteTable, 0x1000_0000, 16) == 0x0317_1d43
  {
    hide Advances;
    NoneYet(0x0000_0010);
    OneMore(0x0000_0010, 0, 0x0000_0010, 0x105e_c76f);
    OneMore(0x0000_0010, 1, 0x105e_c76f, 0x3fc5_f181);
    OneMore(0x0000_0010, 2, 0x3fc5_f181, 0x70a2_7d8a);
    OneMore(0x0000_0010, 3, 0x70a2_7d8a, 0xe964_b13d);
    OneMore(0x0000_0010, 4, 0xe964_b13d, 0x8f22_61d3);
    OneMore(0x0000_0010, 5, 0x8f22_61d3, 0xc00c_303e);
    OneMore(0x0000_0010, 6, 0xc00c_303e, 0x9c5b_faa6);
    OneMore(0x0000_0010, 7, 0x9c5b_faa6, 0x8476_09b4);
    OneMore(0x0000_0010, 8, 0x8476_09b4, 0x750b_93df);
    OneMore(0x0000_0010, 9, 0x750b_93df, 0x8db5_d61c);
    OneMore(0x0000_0010, 10, 0x8db5_d61c, 0x5d90_bd69);
    OneMore(0x0000_0010, 11, 0x5d90_bd69, 0x1929_d813);
    OneMore(0x0000_0010, 12, 0x1929_d813, 0x0317_1d43);
    OneMore(0x0000_0010, 13, 0x0317_1d43, 0x5228_f955);
    OneMore(0x0000_0010, 14, 0x5228_f955, 0x6486_e636);
    OneMore(0x0000_0010, 15, 0x6486_e636, 0x1626_28bf);
    OneLess(0x0000_1000, 15, 0x0000_0010);
    OneLess(0x0010_0000, 15, 0x0000_1000);
    OneLess(0x0000_1000, 14, 0x0000_0010);
    OneLess(0x1000_0000, 15, 0x0010_0000);
    OneLess(0x0010_0000, 14, 0x0000_1000);
    OneLess(0x0000_1000, 13, 0x0000_0010);
  }

  /** What bit 5 of each byte of a word becomes after 16 bytes. */
  lemma Entries5()
    ensures Advances(ByteTable, 0x0000_0020, 16) == 0x2c4c_517e
    ensures Advances(ByteTable, 0x0000_2000, 16) == 0xc90d_cc6c
    ensures Advances(ByteTable, 0x0020_0000, 16) == 0xa451_f2aa
    ensures Advances(ByteTable, 0x2000_0000, 16) == 0x062e_3a86
  {
    hide Advances;
    NoneYet(0x0000_0020);
    OneMore(0x0000_0020, 0, 0x0000_0020, 0x20bd_8ede);
    OneMore(0x0000_0020, 1, 0x20bd_8ede, 0x7f8b_e302);
    OneMore(0x0000_0020, 2, 0x7f8b_e302, 0xe144_fb14);
    OneMore(0x0000_0020, 3, 0xe144_fb14, 0xd725_148b);
    OneMore(0x0000_0020, 4, 0xd725_148b, 0x1ba8_b557);
    OneMore(0x0000_0020, 5, 0x1ba8_b557, 0x85f4_168d);
    OneMore(0x0000_0020, 6, 0x85f4_168d, 0x3d5b_83bd);
    OneMore(0x0000_0020, 7, 0x3d5b_83bd, 0x0d00_6599);
    OneMore(0x0000_0020, 8, 0x0d00_6599, 0xea17_27be);
    OneMore(0x0000_0020, 9, 0xea17_27be, 0x1e87_dac9);
    OneMore(0x0000_0020, 10, 0x1e87_dac9, 0xbb21_7ad2);
    OneMore(0x0000_0020, 11, 0xbb21_7ad2, 0x3253_b026);
    OneMore(0x0000_0020, 12, 0x3253_b026, 0x062e_3a86);
    OneMore(0x0000_0020, 13, 0x062e_3a86, 0xa451_f2aa);
    OneMore(0x0000_0020, 14, 0xa451_f2aa, 0xc90d_cc6c);
    OneMore(0x0000_0020, 15, 0xc90d_cc6c, 0x2c4c_517e);
    OneLess(0x0000_2000, 15, 0x0000_0020);
    OneLess(0x0020_0000, 15, 0x0000_2000);
    OneLess(0x0000_2000, 14, 0x0000_0020);
    OneLess(0x2000_0000, 15, 0x0020_0000);
    OneLess(0x0020_0000, 14, 0x0000_2000);
    OneLess(0x0000_2000, 13, 0x0000_0020);
  }

  /** What bit 6 of each byte of a word becomes after 16 bytes. */
  lemma Entries6()
    ensures Advances(ByteTable, 0x0000_0040, 16) == 0x5898_a2fc
    ensures Advances(ByteTable, 0x0000_4000, 16) == 0x97f7_ee29
    ensures Advances(ByteTable, 0x0040_0000, 16) == 0x4d4f_93a5
    ensures Advances(ByteTable, 0x4000_0000, 16) == 0x0c5c_750c
  {
    hide Advances;
    NoneYet(0x0000_0040);
    OneMore(0x0000_0040, 0, 0x0000_0040, 0x417b_1dbc);
    OneMore(0x0000_0040, 1, 0x417b_1dbc, 0xff17_c604);
    OneMore(0x0000_0040, 2, 0xff17_c604, 0xc765_80d9);
    OneMore(0x0000_0040, 3, 0xc765_80d9, 0xaba6_5fe7);
    OneMore(0x0000_0040, 4, 0xaba6_5fe7, 0x3751_6aae);
    OneMore(0x0000_0040, 5, 0x3751_6aae, 0x0e04_5beb);
    OneMore(0x0000_0040, 6, 0x0e04_5beb, 0x7ab7_077a);
    OneMore(0x0000_0040, 7, 0x7ab7_077a, 0x1a00_cb32);
    OneMore(0x0000_0040, 8, 0x1a00_cb32, 0xd1c2_398d);
    OneMore(0x0000_0040, 9, 0xd1c2_398d, 0x3d0f_b592);
    OneMore(0x0000_0040, 10, 0x3d0f_b592, 0x73ae_8355);
    OneMore(0x0000_0040, 11, 0x73ae_8355, 0x64a7_604c);
    OneMore(0x0000_0040, 12, 0x64a7_604c, 0x0c5c_750c);
    OneMore(0x0000_0040, 13, 0x0c5c_750c, 0x4d4f_93a5);
    OneMore(0x0000_0040, 14, 0x4d4f_93a5, 0x97f7_ee29);
    OneMore(0x0000_0040, 15, 0x97f7_ee29, 0x5898_a2fc);
    OneLess(0x0000_4000, 15, 0x0000_0040);
    OneLess(0x0040_0000, 15, 0x0000_4000);
    OneLess(0x0000_4000, 14, 0x0000_0040);
    OneLess(0x4000_0000, 15, 0x0040_0000);
    OneLess(0x0040_0000, 14, 0x0000_4000);
    OneLess(0x0000_4000, 13, 0x0000_0040);
  }

  /** What bit 7 of each byte of a word becomes after 16 bytes. */
  lemma Entries7()
    ensures Advances(ByteTable, 0x0000_0080, 16) == 0xb131_45f8
    ensures Advances(ByteTable, 0x0000_8000, 16) == 0x2a03_aaa3
    ensures Advances(ByteTable, 0x0080_0000, 16) == 0x9a9f_274a
    ensures Advances(ByteTable, 0x8000_0000, 16) == 0x18b8_ea18
  {
    hide Advances;
    NoneYet(0x0000_0080);
    OneMore(0x0000_0080, 0, 0x0000_0080, 0x82f6_3b78);
    OneMore(0x0000_0080, 1, 0x82f6_3b78, 0xfbc3_faf9);
    OneMore(0x0000_0080, 2, 0xfbc3_faf9, 0x8b27_7743);
    OneMore(0x0000_0080, 3, 0x8b27_7743, 0x52a0_c93f);
    OneMore(0x0000_0080, 4, 0x52a0_c93f, 0x6ea2_d55c);
    OneMore(0x0000_0080, 5, 0x6ea2_d55c, 0x1c08_b7d6);
    OneMore(0x0000_0080, 6, 0x1c08_b7d6, 0xf56e_0ef4);
    OneMore(0x0000_0080, 7, 0xf56e_0ef4, 0x3401_9664);
    OneMore(0x0000_0080, 8, 0x3401_9664, 0xa668_05eb);
    OneMore(0x0000_0080, 9, 0xa668_05eb, 0x7a1f_6b24);
    OneMore(0x0000_0080, 10, 0x7a1f_6b24, 0xe75d_06aa);
    OneMore(0x0000_0080, 11, 0xe75d_06aa, 0xc94e_c098);
    OneMore(0x0000_0080, 12, 0xc94e_c098, 0x18b8_ea18);
    OneMore(0x0000_0080, 13, 0x18b8_ea18, 0x9a9f_274a);
    OneMore(0x0000_0080, 14, 0x9a9f_274a, 0x2a03_aaa3);
    OneMore(0x0000_0080, 15, 0x2a03_aaa3, 0xb131_45f8);
    OneLess(0x0000_8000, 15, 0x0000_0080);
    OneLess(0x0080_0000, 15, 0x0000_8000);
    OneLess(0x0000_8000, 14, 0x0000_0080);
    OneLess(0x8000_0000, 15, 0x0080_0000);
    OneLess(0x0080_0000, 14, 0x0000_8000);
    OneLess(0x0000_8000, 13, 0x0000_0080);
  }

  /** Advancing goes through the entries a word is put together from. */
  lemma AdvancesSpread(b: bv8, r0: Word, r1: Word, r2: Word, r3: Word, r4: Word, r5: Word, r6: Word, r7: Word)
    ensures Advances(ByteTable, Spread(b, r0, r1, r2, r3, r4, r5, r6, r7), 16) ==
            Spread(b, Advances(ByteTable, r0, 16), Advances(ByteTable, r1, 16), Advances(ByteTable, r2, 16),
                   Advances(ByteTable, r3, 16), Advances(ByteTable, r4, 16), Advances(ByteTable, r5, 16),
                   Advances(ByteTable, r6, 16), Advances(ByteTable, r7, 16))
  {
    hide Xor, Pick, Advances, ByteTable, Linear;
    ByteTableLinear();
    var t := ByteTable;
    AdvancesPick(b, 1, r0);
    AdvancesPick(b, 2, r1);
    AdvancesPick(b, 4, r2);
    AdvancesPick(b, 8, r3);
    AdvancesPick(b, 16, r4);
    AdvancesPick(b, 32, r5);
    AdvancesPick(b, 64, r6);
    AdvancesPick(b, 128, r7);
    AdvancesLinear(t, Pick(b, 1, r0), Pick(b, 2, r1), 16);
    AdvancesLinear(t, Pick(b, 4, r2), Pick(b, 8, r3), 16);
    AdvancesLinear(t, Pick(b, 16, r4), Pick(b, 32, r5), 16);
    AdvancesLinear(t, Pick(b, 64, r6), Pick(b, 128, r7), 16);
    AdvancesLinear(t, Xor(Pick(b, 1, r0), Pick(b, 2, r1)), Xor(Pick(b, 4, r2), Pick(b, 8, r3)), 16);
    AdvancesLinear(t, Xor(Pick(b, 16, r4), Pick(b, 32, r5)), Xor(Pick(b, 64, r6), Pick(b, 128, r7)), 16);
    AdvancesLinear(t, Xor(Xor(Pick(b, 1, r0), Pick(b, 2, r1)), Xor(Pick(b, 4, r2), Pick(b, 8, r3))),
                   Xor(Xor(Pick(b, 16, r4), Pick(b, 32, r5)), Xor(Pick(b, 64, r6), Pick(b, 128, r7))), 16);
  }

  lemma AdvancesPick(b: bv8, bit: bv8, r: Word)
    ensures Advances(ByteTable, Pick(b, bit, r), 16) == Pick(b, bit, Advances(ByteTable, r, 16))
  {
    hide Advances, ByteTable, Linear, Has;
    ByteTableLinear();
    AdvancesZero(ByteTable, 16);
  }

  // ---- the bytes of a word ----

  function Up(w: Word): Word {
    w << 8
  }

  lemma UpXor(a: Word, b: Word)
    ensures Up(Xor(a, b)) == Xor(Up(a), Up(b))
  {
  }

  lemma UpZero()
    ensures Up(0) == 0
  {
  }

  lemma UpPick(b: bv8, bit: bv8, r: Word)
    ensures Up(Pick(b, bit, r)) == Pick(b, bit, Up(r))
  {
    hide Up, Has;
    UpZero();
  }

  lemma UpSpread(b: bv8, r0: Word, r1: Word, r2: Word, r3: Word, r4: Word, r5: Word, r6: Word, r7: Word)
    ensures Up(Spread(b, r0, r1, r2, r3, r4, r5, r6, r7)) ==
              Spread(b, Up(r0), Up(r1), Up(r2), Up(r3), Up(r4), Up(r5), Up(r6), Up(r7))
  {
    hide Up, Xor, Pick;
    UpPick(b, 1, r0);
    UpPick(b, 2, r1);
    UpPick(b, 4, r2);
    UpPick(b, 8, r3);
    UpPick(b, 16, r4);
    UpPick(b, 32, r5);
    UpPick(b, 64, r6);
    UpPick(b, 128, r7);
    UpXor(Pick(b, 1, r0), Pick(b, 2, r1));
    UpXor(Pick(b, 4, r2), Pick(b, 8, r3));
    UpXor(Pick(b, 16, r4), Pick(b, 32, r5));
    UpXor(Pick(b, 64, r6), Pick(b, 128, r7));
    UpXor(Xor(Pick(b, 1, r0), Pick(b, 2, r1)), Xor(Pick(b, 4, r2), Pick(b, 8, r3)));
    UpXor(Xor(Pick(b, 16, r4), Pick(b, 32, r5)), Xor(Pick(b, 64, r6), Pick(b, 128, r7)));
    UpXor(Xor(Xor(Pick(b, 1, r0), Pick(b, 2, r1)), Xor(Pick(b, 4, r2), Pick(b, 8, r3))),
          Xor(Xor(Pick(b, 16, r4), Pick(b, 32, r5)), Xor(Pick(b, 64, r6), Pick(b, 128, r7))));
  }

  function AsWord(b: bv8): Word {
    b as Word
  }

  lemma Place0(b: bv8)
    ensures AsWord(b) ==
            Spread(b, 0x0000_0001, 0x0000_0002, 0x0000_0004, 0x0000_0008,
                   0x0000_0010, 0x0000_0020, 0x0000_0040, 0x0000_0080)
  {
  }

  lemma Stride3Is(b: bv8)
    ensures Stride3(b) == Advances(ByteTable, AsWord(b), 16)
  {
    hide Spread, Advances, Up, AsWord;
    Place0(b);
    AdvancesSpread(b, 0x0000_0001, 0x0000_0002, 0x0000_0004, 0x0000_0008,
                   0x0000_0010, 0x0000_0020, 0x0000_0040, 0x0000_0080);
    Entries0();
    Entries1();
    Entries2();
    Entries3();
    Entries4();
    Entries5();
    Entries6();
    Entries7();
  }

  lemma Place1(b: bv8)
    ensures Up(AsWord(b)) ==
            Spread(b, 0x0000_0100, 0x0000_0200, 0x0000_0400, 0x0000_0800,
                   0x0000_1000, 0x0000_2000, 0x0000_4000, 0x0000_8000)
  {
    hide Spread, AsWord;
    Place0(b);
    UpSpread(b, 0x0000_0001, 0x0000_0002, 0x0000_0004, 0x0000_0008,
             0x0000_0010, 0x0000_0020, 0x0000_0040, 0x0000_0080);
  }

  lemma Stride2Is(b: bv8)
    ensures Stride2(b) == Advances(ByteTable, Up(AsWord(b)), 16)
  {
    hide Spread, Advances, Up, AsWord;
    Place1(b);
    AdvancesSpread(b, 0x0000_0100, 0x0000_0200, 0x0000_0400, 0x0000_0800,
                   0x0000_1000, 0x0000_2000, 0x0000_4000, 0x0000_8000);
    Entries0();
    Entries1();
    Entries2();
    Entries3();
    Entries4();
    Entries5();
    Entries6();
    Entries7();
  }

  lemma Place2(b: bv8)
    ensures Up(Up(AsWord(b))) ==
            Spread(b, 0x0001_0000, 0x0002_0000, 0x0004_0000, 0x0008_0000,
                   0x0010_0000, 0x0020_0000, 0x0040_0000, 0x0080_0000)
  {
    hide Spread, AsWord;
    Place1(b);
    UpSpread(b, 0x0000_0100, 0x0000_0200, 0x0000_0400, 0x0000_0800,
             0x0000_1000, 0x0000_2000, 0x0000_4000, 0x0000_8000);
  }

  lemma Stride1Is(b: bv8)
    ensures Stride1(b) == Advances(ByteTable, Up(Up(AsWord(b))), 16)
  {
    hide Spread, Advances, Up, AsWord;
    Place2(b);
    AdvancesSpread(b, 0x0001_0000, 0x0002_0000, 0x0004_0000, 0x0008_0000,
                   0x0010_0000, 0x0020_0000, 0x0040_0000, 0x0080_0000);
    Entries0();
    Entries1();
    Entries2();
    Entries3();
    Entries4();
    Entries5();
    Entries6();
    Entries7();
  }

  lemma Place3(b: bv8)
    ensures Up(Up(Up(AsWord(b)))) ==
            Spread(b, 0x0100_0000, 0x0200_0000, 0x0400_0000, 0x0800_0000,
                   0x1000_0000, 0x2000_0000, 0x4000_0000, 0x8000_0000)
  {
    hide Spread, AsWord;
    Place2(b);
    UpSpread(b, 0x0001_0000, 0x0002_0000, 0x0004_0000, 0x0008_0000,
             0x0010_0000, 0x0020_0000, 0x0040_0000, 0x0080_0000);
  }

  lemma Stride0Is(b: bv8)
    ensures Stride0(b) == Advances(ByteTable, Up(Up(Up(AsWord(b)))), 16)
  {
    hide Spread, Advances, Up, AsWord;
    Place3(b);
    AdvancesSpread(b, 0x0100_0000, 0x0200_0000, 0x0400_0000, 0x0800_0000,
                   0x1000_0000, 0x2000_0000, 0x4000_0000, 0x8000_0000);
    Entries0();
    Entries1();
    Entries2();
    Entries3();
    Entries4();
    Entries5();
    Entries6();
    Entries7();
  }

  lemma FirstBytesAre(w: Word)
    ensures AsWord(Byte(w, 0)) == w & 0xff && Up(AsWord(Byte(w, 1))) == w & 0xff00
  {
  }

  lemma LastBytesAre(w: Word)
    ensures Up(Up(AsWord(Byte(w, 2)))) == w & 0xff_0000 && Up(Up(Up(AsWord(Byte(w, 3))))) == w & 0xff00_0000
  {
  }

  lemma MaskedParts(w: Word)
    ensures Xor(Xor(Xor(w & 0xff, w & 0xff00), w & 0xff_0000), w & 0xff00_0000) == w
  {
  }

  lemma StrideIsSixteen(w: Word)
    ensures Stride(TABLES, w) == Advances(ByteTable, w, 16)
  {
    hide Linear, Advances, Xor, Up, AsWord, Byte, ByteTable, Stride0, Stride1, Stride2, Stride3;
    ByteTableLinear();
    var t := ByteTable;
    var b0, b1, b2, b3 := AsWord(Byte(w, 0)), Up(AsWord(Byte(w, 1))), Up(Up(AsWord(Byte(w, 2)))),
          Up(Up(Up(AsWord(Byte(w, 3)))));
    Stride3Is(Byte(w, 0));
    Stride2Is(Byte(w, 1));
    Stride1Is(Byte(w, 2));
    Stride0Is(Byte(w, 3));
    assert Xor(Xor(Xor(b0, b1), b2), b3) == w by {
      FirstBytesAre(w);
      LastBytesAre(w);
      MaskedParts(w);
    }
    AdvancesLinear(t, b0, b1, 16);
    AdvancesLinear(t, Xor(b0, b1), b2, 16);
    AdvancesLinear(t, Xor(Xor(b0, b1), b2), b3, 16);
  }

  /** The tables fit: taking in a word through the stride tables is taking in its 16 bytes through the byte table. */
  lemma TablesAreOk()
    ensures TablesOk(TABLES)
  {
    hide Linear, Advances, Stride;
    ByteTableLinear();
    forall w
      ensures Stride(TABLES, w) == Advances(ByteTable, w, 16)
    {
      StrideIsSixteen(w);
    }
  }

  /** The checksum that the portable code computes, whatever the length of the data and its alignment. */
  method Extend(crc: Word, data: seq<bv8>, k: nat) returns (r: Word)
    requires k < 4
    ensures r == Value(ByteTable, crc, data)
  {
    hide Value, TablesOk;
    TablesAreOk();
    r := Crc32c.Extend(TABLES, crc, data, k);
  }

  // ---- the polynomial ----

  const POLYNOMIAL: Word := 0x82f6_3b78

  /** One bit of polynomial division. */
  function BitStep(w: Word): Word {
    if w & 1 == 0 then w >> 1 else (w >> 1) ^ POLYNOMIAL
  }

  function EightBits(w: Word): Word {
    BitStep(BitStep(BitStep(BitStep(BitStep(BitStep(BitStep(BitStep(w))))))))
  }

  /** An entry of the byte table is what eight steps of division by the polynomial leave of the byte. */
  lemma ByteTableDivides(b: bv8)
    ensures ByteTable(b) == EightBits(AsWord(b))
  {
  }

  /** The remainder of a message by the polynomial, bit after bit, going on from the remainder `w`. */
  function Remainder(w: Word, data: seq<bv8>): Word
    decreases |data|
  {
    if data == [] then w else Remainder(EightBits(Xor(w, AsWord(data[0]))), data[1..])
  }

  function Half(w: Word): Word {
    w >> 1
  }

  predicate Odd(w: Word) {
    w & 1 != 0
  }

  lemma HalfXor(a: Word, b: Word)
    ensures Half(Xor(a, b)) == Xor(Half(a), Half(b)) && (Odd(Xor(a, b)) <==> Odd(a) != Odd(b))
  {
  }

  lemma BitStepIs(w: Word)
    ensures BitStep(w) == Xor(Half(w), if Odd(w) then POLYNOMIAL else 0)
  {
  }

  lemma BitStepXor(a: Word, b: Word)
    ensures BitStep(Xor(a, b)) == Xor(BitStep(a), BitStep(b))
  {
    hide BitStep, Xor, Half, Odd;
    BitStepIs(a);
    BitStepIs(b);
    BitStepIs(Xor(a, b));
    HalfXor(a, b);
    Xor4(Half(a), if Odd(a) then POLYNOMIAL else 0, Half(b), if Odd(b) then POLYNOMIAL else 0);
    XorSelf(POLYNOMIAL);
    XorCancels(POLYNOMIAL, 0);
    XorCancels(0, 0);
  }

  lemma EightBitsXor(a: Word, b: Word)
    ensures EightBits(Xor(a, b)) == Xor(EightBits(a), EightBits(b))
  {
    hide BitStep, Xor;
    var a1, b1 := BitStep(a), BitStep(b);
    var a2, b2 := BitStep(a1), BitStep(b1);
    var a3, b3 := BitStep(a2), BitStep(b2);
    var a4, b4 := BitStep(a3), BitStep(b3);
    var a5, b5 := BitStep(a4), BitStep(b4);
    var a6, b6 := BitStep(a5), BitStep(b5);
    var a7, b7 := BitStep(a6), BitStep(b6);
    BitStepXor(a, b);
    BitStepXor(a1, b1);
    BitStepXor(a2, b2);
    BitStepXor(a3, b3);
    BitStepXor(a4, b4);
    BitStepXor(a5, b5);
    BitStepXor(a6, b6);
    BitStepXor(a7, b7);
  }

  lemma HighBitsMove(w: Word)
    ensures EightBits(Up(Shift8(w))) == Shift8(w)
    ensures Xor(AsWord(Low(w)), Up(Shift8(w))) == w
  {
  }

  lemma LowByteAlone(w: Word, b: bv8)
    ensures Low(Xor(w, AsWord(b))) == Xor8(Low(w), b) && Shift8(Xor(w, AsWord(b))) == Shift8(w)
  {
  }

  /** A byte through the table is its eight bits one after the other. */
  lemma ByteDivides(w: Word, b: bv8)
    ensures Step(ByteTable, w, b) == EightBits(Xor(w, AsWord(b)))
  {
    hide ByteTable, EightBits, Xor, Xor8, AsWord, Low, Shift8, Up;
    var x := Xor(w, AsWord(b));
    ByteTableDivides(Low(x));
    LowByteAlone(w, b);
    EightBitsXor(AsWord(Low(x)), Up(Shift8(x)));
    HighBitsMove(x);
  }

  lemma {:induction false} FoldIsRemainder(w: Word, data: seq<bv8>)
    ensures Fold(ByteTable, w, data) == Remainder(w, data)
    decreases |data|
  {
    hide ByteTable, EightBits, Step, Xor, AsWord;
    if data != [] {
      ByteDivides(w, data[0]);
      FoldIsRemainder(Step(ByteTable, w, data[0]), data[1..]);
    }
  }

  function Not(w: Word): Word {
    !w
  }

  lemma NotIsXor(w: Word)
    ensures Xor(w, CRC_XOR) == Not(w)
  {
  }

  /** The checksum is the complement of a remainder that goes on from the complement of the checksum so far. */
  lemma ValueIsRemainder(crc: Word, data: seq<bv8>)
    ensures Value(ByteTable, crc, data) == Not(Remainder(Not(crc), data))
  {
    hide ByteTable, Fold, Remainder, Xor, Not;
    FoldIsRemainder(Not(crc), data);
    NotIsXor(crc);
    NotIsXor(Fold(ByteTable, Not(crc), data));
  }

  function Not8(b: bv8): bv8 {
    !b
  }

  /** The message with its first four bytes complemented. */
  function Complemented(data: seq<bv8>): seq<bv8>
    requires |data| >= 4
  {
    [Not8(data[0]), Not8(data[1]), Not8(data[2]), Not8(data[3])] + data[4..]
  }

  lemma WordIsPacked(a: bv8, b: bv8, c: bv8, d: bv8)
    ensures WordOf([a, b, c, d]) == Packed(AsWord(a), AsWord(b), AsWord(c), AsWord(d))
  {
    hide Packed;
  }

  lemma PackedComplements(a: Word, b: Word, c: Word, d: Word)
    requires a & 0xff == a && b & 0xff == b && c & 0xff == c && d & 0xff == d
    ensures Packed(Xor(0xff, a), Xor(0xff, b), Xor(0xff, c), Xor(0xff, d)) == Xor(0xffff_ffff, Packed(a, b, c, d))
  {
  }

  lemma ByteComplements(b: bv8)
    ensures AsWord(Not8(b)) == Xor(0xff, AsWord(b)) && AsWord(b) & 0xff == AsWord(b)
  {
  }

  lemma FourComplements(a: bv8, b: bv8, c: bv8, d: bv8)
    ensures WordOf([Not8(a), Not8(b), Not8(c), Not8(d)]) == Xor(0xffff_ffff, WordOf([a, b, c, d]))
  {
    hide WordOf, Packed, AsWord, Not8, Xor;
    WordIsPacked(a, b, c, d);
    WordIsPacked(Not8(a), Not8(b), Not8(c), Not8(d));
    ByteComplements(a);
    ByteComplements(b);
    ByteComplements(c);
    ByteComplements(d);
    PackedComplements(AsWord(a), AsWord(b), AsWord(c), AsWord(d));
  }

  lemma AllOnes()
    ensures Not(0) == 0xffff_ffff
  {
  }

  lemma ComplementedFold(rest: seq<bv8>, a: bv8, b: bv8, c: bv8, d: bv8)
    ensures Fold(ByteTable, 0, [Not8(a), Not8(b), Not8(c), Not8(d)] + rest) ==
            Fold(ByteTable, 0xffff_ffff, [a, b, c, d] + rest)
  {
    hide ByteTable, Fold, Xor, WordOf, Advances, Not8;
    var front, back := [a, b, c, d], [Not8(a), Not8(b), Not8(c), Not8(d)];
    FoldConcat(ByteTable, 0xffff_ffff, front, rest);
    FoldConcat(ByteTable, 0, back, rest);
    FoldOfWord(ByteTable, 0xffff_ffff, front);
    FoldOfWord(ByteTable, 0, back);
    FourComplements(a, b, c, d);
    XorCancels(WordOf(back), 0);
  }

  /** The checksum of a message on its own: complement its first 32 bits, divide by the polynomial, and complement the
      remainder. */
  lemma ValueOfMessage(data: seq<bv8>)
    requires |data| >= 4
    ensures Value(ByteTable, 0, data) == Not(Remainder(0, Complemented(data)))
  {
    hide ByteTable, Fold, Remainder, Not, Not8, Value;
    ValueIsRemainder(0, data);
    AllOnes();
    FoldIsRemainder(0xffff_ffff, data);
    FoldIsRemainder(0, Complemented(data));
    assert data == [data[0], data[1], data[2], data[3]] + data[4..];
    ComplementedFold(data[4..], data[0], data[1], data[2], data[3]);
  }
}
