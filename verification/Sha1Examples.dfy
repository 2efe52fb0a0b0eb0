/** The examples of FIPS 180: the digests of two messages, of one block and of two, round by round.  They fix the
    constants, the order of bytes and words, the rotations and how blocks are chained. */
module Sha1Examples {
  import opened Sha1

  /** Sixteen words of the message schedule */
  ghost predicate Have(m: seq<bv32>, t: nat, w0: bv32, w1: bv32, w2: bv32, w3: bv32, w4: bv32, w5: bv32, w6: bv32, w7: bv32,
                       w8: bv32, w9: bv32, w10: bv32, w11: bv32, w12: bv32, w13: bv32, w14: bv32, w15: bv32)
  {
    && |m| == 16
    && W(m, t) == w0 && W(m, t + 1) == w1 && W(m, t + 2) == w2 && W(m, t + 3) == w3
    && W(m, t + 4) == w4 && W(m, t + 5) == w5 && W(m, t + 6) == w6 && W(m, t + 7) == w7
    && W(m, t + 8) == w8 && W(m, t + 9) == w9 && W(m, t + 10) == w10 && W(m, t + 11) == w11
    && W(m, t + 12) == w12 && W(m, t + 13) == w13 && W(m, t + 14) == w14 && W(m, t + 15) == w15
  }

  /** One round, and the word that is needed sixteen rounds later */
  lemma Next(h: Regs, m: seq<bv32>, t: nat, r: Regs, w: bv32, w2: bv32, w8: bv32, w13: bv32)
    requires |m| == 16 && Rounds(h, m, t) == r
    requires W(m, t) == w && W(m, t + 2) == w2 && W(m, t + 8) == w8 && W(m, t + 13) == w13
    ensures Rounds(h, m, t + 1) == Round(t, r, w) && W(m, t + 16) == Rol1(Xor(Xor(Xor(w13, w8), w2), w))
  {}

  lemma Compressed(h: Regs, m: seq<bv32>, r: Regs)
    requires |m| == 16 && Rounds(h, m, 80) == r
    ensures Compress(h, m) == Regs(Add(h.a, r.a), Add(h.b, r.b), Add(h.c, r.c), Add(h.d, r.d), Add(h.e, r.e))
  {}

  lemma First16(h: Regs, m: seq<bv32>)
    requires Have(m, 0, 0x61626364, 0x62636465, 0x63646566, 0x64656667, 0x65666768, 0x66676869, 0x6768696a, 0x68696a6b,
                  0x696a6b6c, 0x6a6b6c6d, 0x6b6c6d6e, 0x6c6d6e6f, 0x6d6e6f70, 0x6e6f7071, 0x80000000, 0x00000000)
    requires Rounds(h, m, 0) == Regs(0x67452301, 0xefcdab89, 0x98badcfe, 0x10325476, 0xc3d2e1f0)
    ensures Have(m, 16, 0x0a063a3e, 0xd8dadcdf, 0xdadcdec0, 0xc8d2b4be, 0x6f757b5b, 0x757b5967, 0x8da16d70, 0xdaeefaba,
                  0xfaf6cab6, 0xa6fb675a, 0x0c604cc8, 0x604cc02c, 0x49c0e6e2, 0x2ee8cbbc, 0xcfd72ec4, 0x97e9810e)
    ensures Rounds(h, m, 16) == Regs(0x42637e39, 0xb2e7a8be, 0x4cbe52a1, 0xa180d207, 0xb867b2a8)
  {
    hide W, Rounds;
    Next(h, m, 0, Regs(0x67452301, 0xefcdab89, 0x98badcfe, 0x10325476, 0xc3d2e1f0),
         0x61626364, 0x63646566, 0x696a6b6c, 0x6e6f7071);
    Next(h, m, 1, Regs(0x0116fc17, 0x67452301, 0x7bf36ae2, 0x98badcfe, 0x10325476),
         0x62636465, 0x64656667, 0x6a6b6c6d, 0x80000000);
    Next(h, m, 2, Regs(0xebf3b452, 0x0116fc17, 0x59d148c0, 0x7bf36ae2, 0x98badcfe),
         0x63646566, 0x65666768, 0x6b6c6d6e, 0x00000000);
    Next(h, m, 3, Regs(0x5109913a, 0xebf3b452, 0xc045bf05, 0x59d148c0, 0x7bf36ae2),
         0x64656667, 0x66676869, 0x6c6d6e6f, 0x0a063a3e);
    Next(h, m, 4, Regs(0x2c4f6eac, 0x5109913a, 0xbafced14, 0xc045bf05, 0x59d148c0),
         0x65666768, 0x6768696a, 0x6d6e6f70, 0xd8dadcdf);
    Next(h, m, 5, Regs(0x33f4ae5b, 0x2c4f6eac, 0x9442644e, 0xbafced14, 0xc045bf05),
         0x66676869, 0x68696a6b, 0x6e6f7071, 0xdadcdec0);
    Next(h, m, 6, Regs(0x96b85189, 0x33f4ae5b, 0x0b13dbab, 0x9442644e, 0xbafced14),
         0x6768696a, 0x696a6b6c, 0x80000000, 0xc8d2b4be);
    Next(h, m, 7, Regs(0xdb04cb58, 0x96b85189, 0xccfd2b96, 0x0b13dbab, 0x9442644e),
         0x68696a6b, 0x6a6b6c6d, 0x00000000, 0x6f757b5b);
    Next(h, m, 8, Regs(0x45833f0f, 0xdb04cb58, 0x65ae1462, 0xccfd2b96, 0x0b13dbab),
         0x696a6b6c, 0x6b6c6d6e, 0x0a063a3e, 0x757b5967);
    Next(h, m, 9, Regs(0xc565c35e, 0x45833f0f, 0x36c132d6, 0x65ae1462, 0xccfd2b96),
         0x6a6b6c6d, 0x6c6d6e6f, 0xd8dadcdf, 0x8da16d70);
    Next(h, m, 10, Regs(0x6350afda, 0xc565c35e, 0xd160cfc3, 0x36c132d6, 0x65ae1462),
         0x6b6c6d6e, 0x6d6e6f70, 0xdadcdec0, 0xdaeefaba);
    Next(h, m, 11, Regs(0x8993ea77, 0x6350afda, 0xb15970d7, 0xd160cfc3, 0x36c132d6),
         0x6c6d6e6f, 0x6e6f7071, 0xc8d2b4be, 0xfaf6cab6);
    Next(h, m, 12, Regs(0xe19ecaa2, 0x8993ea77, 0x98d42bf6, 0xb15970d7, 0xd160cfc3),
         0x6d6e6f70, 0x80000000, 0x6f757b5b, 0xa6fb675a);
    Next(h, m, 13, Regs(0x8603481e, 0xe19ecaa2, 0xe264fa9d, 0x98d42bf6, 0xb15970d7),
         0x6e6f7071, 0x00000000, 0x757b5967, 0x0c604cc8);
    Next(h, m, 14, Regs(0x32f94a85, 0x8603481e, 0xb867b2a8, 0xe264fa9d, 0x98d42bf6),
         0x80000000, 0x0a063a3e, 0x8da16d70, 0x604cc02c);
    Next(h, m, 15, Regs(0xb2e7a8be, 0x32f94a85, 0xa180d207, 0xb867b2a8, 0xe264fa9d),
         0x00000000, 0xd8dadcdf, 0xdaeefaba, 0x49c0e6e2);
  }

  lemma First32(h: Regs, m: seq<bv32>)
    requires Have(m, 16, 0x0a063a3e, 0xd8dadcdf, 0xdadcdec0, 0xc8d2b4be, 0x6f757b5b, 0x757b5967, 0x8da16d70, 0xdaeefaba,
                  0xfaf6cab6, 0xa6fb675a, 0x0c604cc8, 0x604cc02c, 0x49c0e6e2, 0x2ee8cbbc, 0xcfd72ec4, 0x97e9810e)
    requires Rounds(h, m, 16) == Regs(0x42637e39, 0xb2e7a8be, 0x4cbe52a1, 0xa180d207, 0xb867b2a8)
    ensures Have(m, 32, 0x0989cbe8, 0xf24843fe, 0x5c40d0ba, 0xa8d9cc3b, 0xb2b9666e, 0xba7b71b7, 0x20b28a72, 0xb28af500,
                  0x8ac87842, 0x289addf4, 0x56d51f21, 0xd96b7fd2, 0x3868e778, 0xab5e4848, 0x7f0e2118, 0xde87a111)
    ensures Rounds(h, m, 32) == Regs(0x52e31f60, 0xa9c84bec, 0x816d15ec, 0x78448908, 0x3549a991)
  {
    hide W, Rounds;
    Next(h, m, 16, Regs(0x42637e39, 0xb2e7a8be, 0x4cbe52a1, 0xa180d207, 0xb867b2a8),
         0x0a063a3e, 0xdadcdec0, 0xfaf6cab6, 0x2ee8cbbc);
    Next(h, m, 17, Regs(0x6b068048, 0x42637e39, 0xacb9ea2f, 0x4cbe52a1, 0xa180d207),
         0xd8dadcdf, 0xc8d2b4be, 0xa6fb675a, 0xcfd72ec4);
    Next(h, m, 18, Regs(0x426b9c35, 0x6b068048, 0x5098df8e, 0xacb9ea2f, 0x4cbe52a1),
         0xdadcdec0, 0x6f757b5b, 0x0c604cc8, 0x97e9810e);
    Next(h, m, 19, Regs(0x944b1bd1, 0x426b9c35, 0x1ac1a012, 0x5098df8e, 0xacb9ea2f),
         0xc8d2b4be, 0x757b5967, 0x604cc02c, 0x0989cbe8);
    Next(h, m, 20, Regs(0x6c445652, 0x944b1bd1, 0x509ae70d, 0x1ac1a012, 0x5098df8e),
         0x6f757b5b, 0x8da16d70, 0x49c0e6e2, 0xf24843fe);
    Next(h, m, 21, Regs(0x95836da5, 0x6c445652, 0x6512c6f4, 0x509ae70d, 0x1ac1a012),
         0x757b5967, 0xdaeefaba, 0x2ee8cbbc, 0x5c40d0ba);
    Next(h, m, 22, Regs(0x09511177, 0x95836da5, 0x9b111594, 0x6512c6f4, 0x509ae70d),
         0x8da16d70, 0xfaf6cab6, 0xcfd72ec4, 0xa8d9cc3b);
    Next(h, m, 23, Regs(0xe2b92dc4, 0x09511177, 0x6560db69, 0x9b111594, 0x6512c6f4),
         0xdaeefaba, 0xa6fb675a, 0x97e9810e, 0xb2b9666e);
    Next(h, m, 24, Regs(0xfd224575, 0xe2b92dc4, 0xc254445d, 0x6560db69, 0x9b111594),
         0xfaf6cab6, 0x0c604cc8, 0x0989cbe8, 0xba7b71b7);
    Next(h, m, 25, Regs(0xeeb82d9a, 0xfd224575, 0x38ae4b71, 0xc254445d, 0x6560db69),
         0xa6fb675a, 0x604cc02c, 0xf24843fe, 0x20b28a72);
    Next(h, m, 26, Regs(0x5a142c1a, 0xeeb82d9a, 0x7f48915d, 0x38ae4b71, 0xc254445d),
         0x0c604cc8, 0x49c0e6e2, 0x5c40d0ba, 0xb28af500);
    Next(h, m, 27, Regs(0x2972f7c7, 0x5a142c1a, 0xbbae0b66, 0x7f48915d, 0x38ae4b71),
         0x604cc02c, 0x2ee8cbbc, 0xa8d9cc3b, 0x8ac87842);
    Next(h, m, 28, Regs(0xd526a644, 0x2972f7c7, 0x96850b06, 0xbbae0b66, 0x7f48915d),
         0x49c0e6e2, 0xcfd72ec4, 0xb2b9666e, 0x289addf4);
    Next(h, m, 29, Regs(0xe1122421, 0xd526a644, 0xca5cbdf1, 0x96850b06, 0xbbae0b66),
         0x2ee8cbbc, 0x97e9810e, 0xba7b71b7, 0x56d51f21);
    Next(h, m, 30, Regs(0x05b457b2, 0xe1122421, 0x3549a991, 0xca5cbdf1, 0x96850b06),
         0xcfd72ec4, 0x0989cbe8, 0x20b28a72, 0xd96b7fd2);
    Next(h, m, 31, Regs(0xa9c84bec, 0x05b457b2, 0x78448908, 0x3549a991, 0xca5cbdf1),
         0x97e9810e, 0xf24843fe, 0xb28af500, 0x3868e778);
  }

  lemma First48(h: Regs, m: seq<bv32>)
    requires Have(m, 32, 0x0989cbe8, 0xf24843fe, 0x5c40d0ba, 0xa8d9cc3b, 0xb2b9666e, 0xba7b71b7, 0x20b28a72, 0xb28af500,
                  0x8ac87842, 0x289addf4, 0x56d51f21, 0xd96b7fd2, 0x3868e778, 0xab5e4848, 0x7f0e2118, 0xde87a111)
    requires Rounds(h, m, 32) == Regs(0x52e31f60, 0xa9c84bec, 0x816d15ec, 0x78448908, 0x3549a991)
    ensures Have(m, 48, 0xe8be56b0, 0x1a0ae652, 0xcd5611c8, 0x46ef29dc, 0x60d3da6d, 0xddf3ba6e, 0x2737f5e9, 0x4888a710,
                  0xd2a1177b, 0x9999633b, 0xd6c69d03, 0xccf6127b, 0x7c58fe6d, 0xfdd99c68, 0xf8e32074, 0xe0ba3c7d)
    ensures Rounds(h, m, 48) == Regs(0xc8a69090, 0xa2ad4f02, 0xb1ba8907, 0x26307a99, 0x58cfa558)
  {
    hide W, Rounds;
    Next(h, m, 32, Regs(0x52e31f60, 0xa9c84bec, 0x816d15ec, 0x78448908, 0x3549a991),
         0x0989cbe8, 0x5c40d0ba, 0x8ac87842, 0xab5e4848);
    Next(h, m, 33, Regs(0x5af3242c, 0x52e31f60, 0x2a7212fb, 0x816d15ec, 0x78448908),
         0xf24843fe, 0xa8d9cc3b, 0x289addf4, 0x7f0e2118);
    Next(h, m, 34, Regs(0x31c756a9, 0x5af3242c, 0x14b8c7d8, 0x2a7212fb, 0x816d15ec),
         0x5c40d0ba, 0xb2b9666e, 0x56d51f21, 0xde87a111);
    Next(h, m, 35, Regs(0xe9ac987c, 0x31c756a9, 0x16bcc90b, 0x14b8c7d8, 0x2a7212fb),
         0xa8d9cc3b, 0xba7b71b7, 0xd96b7fd2, 0xe8be56b0);
    Next(h, m, 36, Regs(0xab7c32ee, 0xe9ac987c, 0x4c71d5aa, 0x16bcc90b, 0x14b8c7d8),
         0xb2b9666e, 0x20b28a72, 0x3868e778, 0x1a0ae652);
    Next(h, m, 37, Regs(0x5933fc99, 0xab7c32ee, 0x3a6b261f, 0x4c71d5aa, 0x16bcc90b),
         0xba7b71b7, 0xb28af500, 0xab5e4848, 0xcd5611c8);
    Next(h, m, 38, Regs(0x43f87ae9, 0x5933fc99, 0xaadf0cbb, 0x3a6b261f, 0x4c71d5aa),
         0x20b28a72, 0x8ac87842, 0x7f0e2118, 0x46ef29dc);
    Next(h, m, 39, Regs(0x24957f22, 0x43f87ae9, 0x564cff26, 0xaadf0cbb, 0x3a6b261f),
         0xb28af500, 0x289addf4, 0xde87a111, 0x60d3da6d);
    Next(h, m, 40, Regs(0xadeb7478, 0x24957f22, 0x50fe1eba, 0x564cff26, 0xaadf0cbb),
         0x8ac87842, 0x56d51f21, 0xe8be56b0, 0xddf3ba6e);
    Next(h, m, 41, Regs(0xd70e5010, 0xadeb7478, 0x89255fc8, 0x50fe1eba, 0x564cff26),
         0x289addf4, 0xd96b7fd2, 0x1a0ae652, 0x2737f5e9);
    Next(h, m, 42, Regs(0x79bcfb08, 0xd70e5010, 0x2b7add1e, 0x89255fc8, 0x50fe1eba),
         0x56d51f21, 0x3868e778, 0xcd5611c8, 0x4888a710);
    Next(h, m, 43, Regs(0xf9bcb8de, 0x79bcfb08, 0x35c39404, 0x2b7add1e, 0x89255fc8),
         0xd96b7fd2, 0xab5e4848, 0x46ef29dc, 0xd2a1177b);
    Next(h, m, 44, Regs(0x633e9561, 0xf9bcb8de, 0x1e6f3ec2, 0x35c39404, 0x2b7add1e),
         0x3868e778, 0x7f0e2118, 0x60d3da6d, 0x9999633b);
    Next(h, m, 45, Regs(0x98c1ea64, 0x633e9561, 0xbe6f2e37, 0x1e6f3ec2, 0x35c39404),
         0xab5e4848, 0xde87a111, 0xddf3ba6e, 0xd6c69d03);
    Next(h, m, 46, Regs(0xc6ea241e, 0x98c1ea64, 0x58cfa558, 0xbe6f2e37, 0x1e6f3ec2),
         0x7f0e2118, 0xe8be56b0, 0x2737f5e9, 0xccf6127b);
    Next(h, m, 47, Regs(0xa2ad4f02, 0xc6ea241e, 0x26307a99, 0x58cfa558, 0xbe6f2e37),
         0xde87a111, 0x1a0ae652, 0x4888a710, 0x7c58fe6d);
  }

  lemma First64(h: Regs, m: seq<bv32>)
    requires Have(m, 48, 0xe8be56b0, 0x1a0ae652, 0xcd5611c8, 0x46ef29dc, 0x60d3da6d, 0xddf3ba6e, 0x2737f5e9, 0x4888a710,
                  0xd2a1177b, 0x9999633b, 0xd6c69d03, 0xccf6127b, 0x7c58fe6d, 0xfdd99c68, 0xf8e32074, 0xe0ba3c7d)
    requires Rounds(h, m, 48) == Regs(0xc8a69090, 0xa2ad4f02, 0xb1ba8907, 0x26307a99, 0x58cfa558)
    ensures Have(m, 64, 0x152198d6, 0x7b3f1982, 0x37f2d5b7, 0x8596323e, 0x810790d6, 0xbea0a942, 0x11c7e1b1, 0x6158d101,
                  0x5fcd77d9, 0x7f2f12e6, 0xf868cfb1, 0xd6e997e9, 0xf526b852, 0xb7578dcc, 0x55d99df4, 0x1ff69958)
    ensures Rounds(h, m, 64) == Regs(0x513f9ca0, 0x2bfaf7a8, 0x10203537, 0xcd8952c4, 0xe7bddd70)
  {
    hide W, Rounds;
    Next(h, m, 48, Regs(0xc8a69090, 0xa2ad4f02, 0xb1ba8907, 0x26307a99, 0x58cfa558),
         0xe8be56b0, 0xcd5611c8, 0xd2a1177b, 0xfdd99c68);
    Next(h, m, 49, Regs(0x88341600, 0xc8a69090, 0xa8ab53c0, 0xb1ba8907, 0x26307a99),
         0x1a0ae652, 0x46ef29dc, 0x9999633b, 0xf8e32074);
    Next(h, m, 50, Regs(0x7e846f58, 0x88341600, 0x3229a424, 0xa8ab53c0, 0xb1ba8907),
         0xcd5611c8, 0x60d3da6d, 0xd6c69d03, 0xe0ba3c7d);
    Next(h, m, 51, Regs(0x86e358ba, 0x7e846f58, 0x220d0580, 0x3229a424, 0xa8ab53c0),
         0x46ef29dc, 0xddf3ba6e, 0xccf6127b, 0x152198d6);
    Next(h, m, 52, Regs(0x8d2e76c8, 0x86e358ba, 0x1fa11bd6, 0x220d0580, 0x3229a424),
         0x60d3da6d, 0x2737f5e9, 0x7c58fe6d, 0x7b3f1982);
    Next(h, m, 53, Regs(0xce892e10, 0x8d2e76c8, 0xa1b8d62e, 0x1fa11bd6, 0x220d0580),
         0xddf3ba6e, 0x4888a710, 0xfdd99c68, 0x37f2d5b7);
    Next(h, m, 54, Regs(0xedea95b1, 0xce892e10, 0x234b9db2, 0xa1b8d62e, 0x1fa11bd6),
         0x2737f5e9, 0xd2a1177b, 0xf8e32074, 0x8596323e);
    Next(h, m, 55, Regs(0x36d1230a, 0xedea95b1, 0x33a24b84, 0x234b9db2, 0xa1b8d62e),
         0x4888a710, 0x9999633b, 0xe0ba3c7d, 0x810790d6);
    Next(h, m, 56, Regs(0x776c3910, 0x36d1230a, 0x7b7aa56c, 0x33a24b84, 0x234b9db2),
         0xd2a1177b, 0xd6c69d03, 0x152198d6, 0xbea0a942);
    Next(h, m, 57, Regs(0xa681b723, 0x776c3910, 0x8db448c2, 0x7b7aa56c, 0x33a24b84),
         0x9999633b, 0xccf6127b, 0x7b3f1982, 0x11c7e1b1);
    Next(h, m, 58, Regs(0xac0a794f, 0xa681b723, 0x1ddb0e44, 0x8db448c2, 0x7b7aa56c),
         0xd6c69d03, 0x7c58fe6d, 0x37f2d5b7, 0x6158d101);
    Next(h, m, 59, Regs(0xf03d3782, 0xac0a794f, 0xe9a06dc8, 0x1ddb0e44, 0x8db448c2),
         0xccf6127b, 0xfdd99c68, 0x8596323e, 0x5fcd77d9);
    Next(h, m, 60, Regs(0x9ef775c3, 0xf03d3782, 0xeb029e53, 0xe9a06dc8, 0x1ddb0e44),
         0x7c58fe6d, 0xf8e32074, 0x810790d6, 0x7f2f12e6);
    Next(h, m, 61, Regs(0x36254b13, 0x9ef775c3, 0xbc0f4de0, 0xeb029e53, 0xe9a06dc8),
         0xfdd99c68, 0xe0ba3c7d, 0xbea0a942, 0xf868cfb1);
    Next(h, m, 62, Regs(0x4080d4dc, 0x36254b13, 0xe7bddd70, 0xbc0f4de0, 0xeb029e53),
         0xf8e32074, 0x152198d6, 0x11c7e1b1, 0xd6e997e9);
    Next(h, m, 63, Regs(0x2bfaf7a8, 0x4080d4dc, 0xcd8952c4, 0xe7bddd70, 0xbc0f4de0),
         0xe0ba3c7d, 0x7b3f1982, 0x6158d101, 0xf526b852);
  }

  lemma First80(h: Regs, m: seq<bv32>)
    requires Have(m, 64, 0x152198d6, 0x7b3f1982, 0x37f2d5b7, 0x8596323e, 0x810790d6, 0xbea0a942, 0x11c7e1b1, 0x6158d101,
                  0x5fcd77d9, 0x7f2f12e6, 0xf868cfb1, 0xd6e997e9, 0xf526b852, 0xb7578dcc, 0x55d99df4, 0x1ff69958)
    requires Rounds(h, m, 64) == Regs(0x513f9ca0, 0x2bfaf7a8, 0x10203537, 0xcd8952c4, 0xe7bddd70)
    ensures Have(m, 80, 0x94936ee9, 0xa8bf495d, 0xa2d62710, 0xf298c4f8, 0x9ab300d1, 0x94f3a53f, 0xd2979ec9, 0x3664b4dd,
                  0x4f8ae77d, 0xa7dca537, 0x33f9c85d, 0xb9587341, 0x3b210081, 0x1f56f3ec, 0x550a3d2b, 0x7418c8b3)
    ensures Rounds(h, m, 80) == Regs(0x8ce34517, 0xd3ad7c25, 0x6b4e1883, 0x74351cd2, 0x86838382)
  {
    hide W, Rounds;
    Next(h, m, 64, Regs(0x513f9ca0, 0x2bfaf7a8, 0x10203537, 0xcd8952c4, 0xe7bddd70),
         0x152198d6, 0x37f2d5b7, 0x5fcd77d9, 0xb7578dcc);
    Next(h, m, 65, Regs(0xe5895c81, 0x513f9ca0, 0x0afebdea, 0x10203537, 0xcd8952c4),
         0x7b3f1982, 0x8596323e, 0x7f2f12e6, 0x55d99df4);
    Next(h, m, 66, Regs(0x1037d2d5, 0xe5895c81, 0x144fe728, 0x0afebdea, 0x10203537),
         0x37f2d5b7, 0x810790d6, 0xf868cfb1, 0x1ff69958);
    Next(h, m, 67, Regs(0x14a82da9, 0x1037d2d5, 0x79625720, 0x144fe728, 0x0afebdea),
         0x8596323e, 0xbea0a942, 0xd6e997e9, 0x94936ee9);
    Next(h, m, 68, Regs(0x6d17c9fd, 0x14a82da9, 0x440df4b5, 0x79625720, 0x144fe728),
         0x810790d6, 0x11c7e1b1, 0xf526b852, 0xa8bf495d);
    Next(h, m, 69, Regs(0x2c7b07bd, 0x6d17c9fd, 0x452a0b6a, 0x440df4b5, 0x79625720),
         0xbea0a942, 0x6158d101, 0xb7578dcc, 0xa2d62710);
    Next(h, m, 70, Regs(0xfdf6efff, 0x2c7b07bd, 0x5b45f27f, 0x452a0b6a, 0x440df4b5),
         0x11c7e1b1, 0x5fcd77d9, 0x55d99df4, 0xf298c4f8);
    Next(h, m, 71, Regs(0x112b96e3, 0xfdf6efff, 0x4b1ec1ef, 0x5b45f27f, 0x452a0b6a),
         0x6158d101, 0x7f2f12e6, 0x1ff69958, 0x9ab300d1);
    Next(h, m, 72, Regs(0x84065712, 0x112b96e3, 0xff7dbbff, 0x4b1ec1ef, 0x5b45f27f),
         0x5fcd77d9, 0xf868cfb1, 0x94936ee9, 0x94f3a53f);
    Next(h, m, 73, Regs(0xab89fb71, 0x84065712, 0xc44ae5b8, 0xff7dbbff, 0x4b1ec1ef),
         0x7f2f12e6, 0xd6e997e9, 0xa8bf495d, 0xd2979ec9);
    Next(h, m, 74, Regs(0xc5210e35, 0xab89fb71, 0xa10195c4, 0xc44ae5b8, 0xff7dbbff),
         0xf868cfb1, 0xf526b852, 0xa2d62710, 0x3664b4dd);
    Next(h, m, 75, Regs(0x352d9f4b, 0xc5210e35, 0x6ae27edc, 0xa10195c4, 0xc44ae5b8),
         0xd6e997e9, 0xb7578dcc, 0xf298c4f8, 0x4f8ae77d);
    Next(h, m, 76, Regs(0x1a0e0e0a, 0x352d9f4b, 0x7148438d, 0x6ae27edc, 0xa10195c4),
         0xf526b852, 0x55d99df4, 0x9ab300d1, 0xa7dca537);
    Next(h, m, 77, Regs(0xd0d47349, 0x1a0e0e0a, 0xcd4b67d2, 0x7148438d, 0x6ae27edc),
         0xb7578dcc, 0x1ff69958, 0x94f3a53f, 0x33f9c85d);
    Next(h, m, 78, Regs(0xad38620d, 0xd0d47349, 0x86838382, 0xcd4b67d2, 0x7148438d),
         0x55d99df4, 0x94936ee9, 0xd2979ec9, 0xb9587341);
    Next(h, m, 79, Regs(0xd3ad7c25, 0xad38620d, 0x74351cd2, 0x86838382, 0xcd4b67d2),
         0x1ff69958, 0xa8bf495d, 0x3664b4dd, 0x3b210081);
  }

  /** The first block */
  lemma FirstBlock(m: seq<bv32>)
    requires Have(m, 0, 0x61626364, 0x62636465, 0x63646566, 0x64656667, 0x65666768, 0x66676869, 0x6768696a, 0x68696a6b,
                  0x696a6b6c, 0x6a6b6c6d, 0x6b6c6d6e, 0x6c6d6e6f, 0x6d6e6f70, 0x6e6f7071, 0x80000000, 0x00000000)
    ensures Compress(Regs(0x67452301, 0xefcdab89, 0x98badcfe, 0x10325476, 0xc3d2e1f0), m) ==
            Regs(0xf4286818, 0xc37b27ae, 0x0408f581, 0x84677148, 0x4a566572)
  {
    hide W, Compress;
    var h := Regs(0x67452301, 0xefcdab89, 0x98badcfe, 0x10325476, 0xc3d2e1f0);
    assert Rounds(h, m, 0) == h;
    hide Rounds;
    First16(h, m);
    First32(h, m);
    First48(h, m);
    First64(h, m);
    First80(h, m);
    Compressed(h, m, Regs(0x8ce34517, 0xd3ad7c25, 0x6b4e1883, 0x74351cd2, 0x86838382));
  }

  lemma Second16(h: Regs, m: seq<bv32>)
    requires Have(m, 0, 0x00000000, 0x00000000, 0x00000000, 0x00000000, 0x00000000, 0x00000000, 0x00000000, 0x00000000,
                  0x00000000, 0x00000000, 0x00000000, 0x00000000, 0x00000000, 0x00000000, 0x00000000, 0x000001c0)
    requires Rounds(h, m, 0) == Regs(0xf4286818, 0xc37b27ae, 0x0408f581, 0x84677148, 0x4a566572)
    ensures Have(m, 16, 0x00000000, 0x00000000, 0x00000380, 0x00000000, 0x00000000, 0x00000700, 0x00000000, 0x00000380,
                  0x00000e00, 0x00000000, 0x00000000, 0x00001c00, 0x00000000, 0x00000d80, 0x00003800, 0x00000480)
    ensures Rounds(h, m, 16) == Regs(0xd9772360, 0x258b0baa, 0x2898132a, 0xffb35eef, 0xd0e89e4b)
  {
    hide W, Rounds;
    Next(h, m, 0, Regs(0xf4286818, 0xc37b27ae, 0x0408f581, 0x84677148, 0x4a566572),
         0x00000000, 0x00000000, 0x00000000, 0x00000000);
    Next(h, m, 1, Regs(0x2df257e9, 0xf4286818, 0xb0dec9eb, 0x0408f581, 0x84677148),
         0x00000000, 0x00000000, 0x00000000, 0x00000000);
    Next(h, m, 2, Regs(0x4d3dc58f, 0x2df257e9, 0x3d0a1a06, 0xb0dec9eb, 0x0408f581),
         0x00000000, 0x00000000, 0x00000000, 0x000001c0);
    Next(h, m, 3, Regs(0xc352bb05, 0x4d3dc58f, 0x4b7c95fa, 0x3d0a1a06, 0xb0dec9eb),
         0x00000000, 0x00000000, 0x00000000, 0x00000000);
    Next(h, m, 4, Regs(0xeef743c6, 0xc352bb05, 0xd34f7163, 0x4b7c95fa, 0x3d0a1a06),
         0x00000000, 0x00000000, 0x00000000, 0x00000000);
    Next(h, m, 5, Regs(0x41e34277, 0xeef743c6, 0x70d4aec1, 0xd34f7163, 0x4b7c95fa),
         0x00000000, 0x00000000, 0x00000000, 0x00000380);
    Next(h, m, 6, Regs(0x5443915c, 0x41e34277, 0xbbbdd0f1, 0x70d4aec1, 0xd34f7163),
         0x00000000, 0x00000000, 0x00000000, 0x00000000);
    Next(h, m, 7, Regs(0xe7fa0377, 0x5443915c, 0xd078d09d, 0xbbbdd0f1, 0x70d4aec1),
         0x00000000, 0x00000000, 0x000001c0, 0x00000000);
    Next(h, m, 8, Regs(0xc6946813, 0xe7fa0377, 0x1510e457, 0xd078d09d, 0xbbbdd0f1),
         0x00000000, 0x00000000, 0x00000000, 0x00000700);
    Next(h, m, 9, Regs(0xfdde1de1, 0xc6946813, 0xf9fe80dd, 0x1510e457, 0xd078d09d),
         0x00000000, 0x00000000, 0x00000000, 0x00000000);
    Next(h, m, 10, Regs(0xb8538aca, 0xfdde1de1, 0xf1a51a04, 0xf9fe80dd, 0x1510e457),
         0x00000000, 0x00000000, 0x00000380, 0x00000380);
    Next(h, m, 11, Regs(0x6ba94f63, 0xb8538aca, 0x7f778778, 0xf1a51a04, 0xf9fe80dd),
         0x00000000, 0x00000000, 0x00000000, 0x00000e00);
    Next(h, m, 12, Regs(0x43a2792f, 0x6ba94f63, 0xae14e2b2, 0x7f778778, 0xf1a51a04),
         0x00000000, 0x00000000, 0x00000000, 0x00000000);
    Next(h, m, 13, Regs(0xfecd7bbf, 0x43a2792f, 0xdaea53d8, 0xae14e2b2, 0x7f778778),
         0x00000000, 0x000001c0, 0x00000700, 0x00000000);
    Next(h, m, 14, Regs(0xa2604ca8, 0xfecd7bbf, 0xd0e89e4b, 0xdaea53d8, 0xae14e2b2),
         0x00000000, 0x00000000, 0x00000000, 0x00001c00);
    Next(h, m, 15, Regs(0x258b0baa, 0xa2604ca8, 0xffb35eef, 0xd0e89e4b, 0xdaea53d8),
         0x000001c0, 0x00000000, 0x00000380, 0x00000000);
  }

  lemma Second32(h: Regs, m: seq<bv32>)
    requires Have(m, 16, 0x00000000, 0x00000000, 0x00000380, 0x00000000, 0x00000000, 0x00000700, 0x00000000, 0x00000380,
                  0x00000e00, 0x00000000, 0x00000000, 0x00001c00, 0x00000000, 0x00000d80, 0x00003800, 0x00000480)
    requires Rounds(h, m, 16) == Regs(0xd9772360, 0x258b0baa, 0x2898132a, 0xffb35eef, 0xd0e89e4b)
    ensures Have(m, 32, 0x00000000, 0x00007000, 0x00000e00, 0x00003600, 0x0000e000, 0x00000e00, 0x00000000, 0x0001ce00,
                  0x00000000, 0x0000d800, 0x00038000, 0x00004f00, 0x00000000, 0x00070e00, 0x0000ee00, 0x00037500)
    ensures Rounds(h, m, 32) == Regs(0x8a4af384, 0x17986223, 0x028bec42, 0xc90a6f97, 0xd7105b6b)
  {
    hide W, Rounds;
    Next(h, m, 16, Regs(0xd9772360, 0x258b0baa, 0x2898132a, 0xffb35eef, 0xd0e89e4b),
         0x00000000, 0x00000380, 0x00000e00, 0x00000d80);
    Next(h, m, 17, Regs(0x5507db6e, 0xd9772360, 0x8962c2ea, 0x2898132a, 0xffb35eef),
         0x00000000, 0x00000000, 0x00000000, 0x00003800);
    Next(h, m, 18, Regs(0xa51b58bc, 0x5507db6e, 0x365dc8d8, 0x8962c2ea, 0x2898132a),
         0x00000380, 0x00000000, 0x00000000, 0x00000480);
    Next(h, m, 19, Regs(0xc2eb709f, 0xa51b58bc, 0x9541f6db, 0x365dc8d8, 0x8962c2ea),
         0x00000000, 0x00000700, 0x00001c00, 0x00000000);
    Next(h, m, 20, Regs(0xd8992153, 0xc2eb709f, 0x2946d62f, 0x9541f6db, 0x365dc8d8),
         0x00000000, 0x00000000, 0x00000000, 0x00007000);
    Next(h, m, 21, Regs(0x37482f5f, 0xd8992153, 0xf0badc27, 0x2946d62f, 0x9541f6db),
         0x00000700, 0x00000380, 0x00000d80, 0x00000e00);
    Next(h, m, 22, Regs(0xee8700bd, 0x37482f5f, 0xf6264854, 0xf0badc27, 0x2946d62f),
         0x00000000, 0x00000e00, 0x00003800, 0x00003600);
    Next(h, m, 23, Regs(0x9ad594b9, 0xee8700bd, 0xcdd20bd7, 0xf6264854, 0xf0badc27),
         0x00000380, 0x00000000, 0x00000480, 0x0000e000);
    Next(h, m, 24, Regs(0x8fbaa5b9, 0x9ad594b9, 0x7ba1c02f, 0xcdd20bd7, 0xf6264854),
         0x00000e00, 0x00000000, 0x00000000, 0x00000e00);
    Next(h, m, 25, Regs(0x88fb5867, 0x8fbaa5b9, 0x66b5652e, 0x7ba1c02f, 0xcdd20bd7),
         0x00000000, 0x00001c00, 0x00007000, 0x00000000);
    Next(h, m, 26, Regs(0xeec50521, 0x88fb5867, 0x63eea96e, 0x66b5652e, 0x7ba1c02f),
         0x00000000, 0x00000000, 0x00000e00, 0x0001ce00);
    Next(h, m, 27, Regs(0x50bce434, 0xeec50521, 0xe23ed619, 0x63eea96e, 0x66b5652e),
         0x00001c00, 0x00000d80, 0x00003600, 0x00000000);
    Next(h, m, 28, Regs(0x5c416daf, 0x50bce434, 0x7bb14148, 0xe23ed619, 0x63eea96e),
         0x00000000, 0x00003800, 0x0000e000, 0x0000d800);
    Next(h, m, 29, Regs(0x2429be5f, 0x5c416daf, 0x142f390d, 0x7bb14148, 0xe23ed619),
         0x00000d80, 0x00000480, 0x00000e00, 0x00038000);
    Next(h, m, 30, Regs(0x0a2fb108, 0x2429be5f, 0xd7105b6b, 0x142f390d, 0x7bb14148),
         0x00003800, 0x00000000, 0x00000000, 0x00004f00);
    Next(h, m, 31, Regs(0x17986223, 0x0a2fb108, 0xc90a6f97, 0xd7105b6b, 0x142f390d),
         0x00000480, 0x00007000, 0x0001ce00, 0x00000000);
  }

  lemma Second48(h: Regs, m: seq<bv32>)
    requires Have(m, 32, 0x00000000, 0x00007000, 0x00000e00, 0x00003600, 0x0000e000, 0x00000e00, 0x00000000, 0x0001ce00,
                  0x00000000, 0x0000d800, 0x00038000, 0x00004f00, 0x00000000, 0x00070e00, 0x0000ee00, 0x00037500)
    requires Rounds(h, m, 32) == Regs(0x8a4af384, 0x17986223, 0x028bec42, 0xc90a6f97, 0xd7105b6b)
    ensures Have(m, 48, 0x000e0000, 0x0000e000, 0x00003600, 0x001cee00, 0x00000000, 0x000df000, 0x00380000, 0x0004c600,
                  0x0000e000, 0x0070ee00, 0x000ee000, 0x00369e00, 0x00e00000, 0x000ed600, 0x0000e000, 0x01cea600)
    ensures Rounds(h, m, 48) == Regs(0x46f93b68, 0x7316056a, 0xb0f40cfa, 0xcf2bb5eb, 0x7b074f58)
  {
    hide W, Rounds;
    Next(h, m, 32, Regs(0x8a4af384, 0x17986223, 0x028bec42, 0xc90a6f97, 0xd7105b6b),
         0x00000000, 0x00000e00, 0x00000000, 0x00070e00);
    Next(h, m, 33, Regs(0x6b629993, 0x8a4af384, 0xc5e61888, 0x028bec42, 0xc90a6f97),
         0x00007000, 0x00003600, 0x0000d800, 0x0000ee00);
    Next(h, m, 34, Regs(0xf15f04f3, 0x6b629993, 0x2292bce1, 0xc5e61888, 0x028bec42),
         0x00000e00, 0x0000e000, 0x00038000, 0x00037500);
    Next(h, m, 35, Regs(0x295cc25b, 0xf15f04f3, 0xdad8a664, 0x2292bce1, 0xc5e61888),
         0x00003600, 0x00000e00, 0x00004f00, 0x000e0000);
    Next(h, m, 36, Regs(0x696da404, 0x295cc25b, 0xfc57c13c, 0xdad8a664, 0x2292bce1),
         0x0000e000, 0x00000000, 0x00000000, 0x0000e000);
    Next(h, m, 37, Regs(0xcef5ae12, 0x696da404, 0xca573096, 0xfc57c13c, 0xdad8a664),
         0x00000e00, 0x0001ce00, 0x00070e00, 0x00003600);
    Next(h, m, 38, Regs(0x87d5b80c, 0xcef5ae12, 0x1a5b6901, 0xca573096, 0xfc57c13c),
         0x00000000, 0x00000000, 0x0000ee00, 0x001cee00);
    Next(h, m, 39, Regs(0x84e2a5f2, 0x87d5b80c, 0xb3bd6b84, 0x1a5b6901, 0xca573096),
         0x0001ce00, 0x0000d800, 0x00037500, 0x00000000);
    Next(h, m, 40, Regs(0x03bb6310, 0x84e2a5f2, 0x21f56e03, 0xb3bd6b84, 0x1a5b6901),
         0x00000000, 0x00038000, 0x000e0000, 0x000df000);
    Next(h, m, 41, Regs(0xc2d8f75f, 0x03bb6310, 0xa138a97c, 0x21f56e03, 0xb3bd6b84),
         0x0000d800, 0x00004f00, 0x0000e000, 0x00380000);
    Next(h, m, 42, Regs(0xbfb25768, 0xc2d8f75f, 0x00eed8c4, 0xa138a97c, 0x21f56e03),
         0x00038000, 0x00000000, 0x00003600, 0x0004c600);
    Next(h, m, 43, Regs(0x28589152, 0xbfb25768, 0xf0b63dd7, 0x00eed8c4, 0xa138a97c),
         0x00004f00, 0x00070e00, 0x001cee00, 0x0000e000);
    Next(h, m, 44, Regs(0xec1d3d61, 0x28589152, 0x2fec95da, 0xf0b63dd7, 0x00eed8c4),
         0x00000000, 0x0000ee00, 0x00000000, 0x0070ee00);
    Next(h, m, 45, Regs(0x3caed7af, 0xec1d3d61, 0x8a162454, 0x2fec95da, 0xf0b63dd7),
         0x00070e00, 0x00037500, 0x000df000, 0x000ee000);
    Next(h, m, 46, Regs(0xc3d033ea, 0x3caed7af, 0x7b074f58, 0x8a162454, 0x2fec95da),
         0x0000ee00, 0x000e0000, 0x00380000, 0x00369e00);
    Next(h, m, 47, Regs(0x7316056a, 0xc3d033ea, 0xcf2bb5eb, 0x7b074f58, 0x8a162454),
         0x00037500, 0x0000e000, 0x0004c600, 0x00e00000);
  }

  lemma Second64(h: Regs, m: seq<bv32>)
    requires Have(m, 48, 0x000e0000, 0x0000e000, 0x00003600, 0x001cee00, 0x00000000, 0x000df000, 0x00380000, 0x0004c600,
                  0x0000e000, 0x0070ee00, 0x000ee000, 0x00369e00, 0x00e00000, 0x000ed600, 0x0000e000, 0x01cea600)
    requires Rounds(h, m, 48) == Regs(0x46f93b68, 0x7316056a, 0xb0f40cfa, 0xcf2bb5eb, 0x7b074f58)
    ensures Have(m, 64, 0x00000000, 0x00d80000, 0x0380e000, 0x004f0000, 0x00000000, 0x070e0000, 0x00ee0000, 0x03751c00,
                  0x0e000000, 0x00e0e000, 0x00363800, 0x1cee9000, 0x00000000, 0x0df09000, 0x3800e000, 0x04c77400)
    ensures Rounds(h, m, 64) == Regs(0xd504902b, 0xf66d9bf4, 0x24d85327, 0xdeaac406, 0xe996063d)
  {
    hide W, Rounds;
    Next(h, m, 48, Regs(0x46f93b68, 0x7316056a, 0xb0f40cfa, 0xcf2bb5eb, 0x7b074f58),
         0x000e0000, 0x00003600, 0x0000e000, 0x000ed600);
    Next(h, m, 49, Regs(0xdc8e7f26, 0x46f93b68, 0x9cc5815a, 0xb0f40cfa, 0xcf2bb5eb),
         0x0000e000, 0x001cee00, 0x0070ee00, 0x0000e000);
    Next(h, m, 50, Regs(0x850d411c, 0xdc8e7f26, 0x11be4eda, 0x9cc5815a, 0xb0f40cfa),
         0x00003600, 0x00000000, 0x000ee000, 0x01cea600);
    Next(h, m, 51, Regs(0x7e4672c0, 0x850d411c, 0xb7239fc9, 0x11be4eda, 0x9cc5815a),
         0x001cee00, 0x000df000, 0x00369e00, 0x00000000);
    Next(h, m, 52, Regs(0x89fbd41d, 0x7e4672c0, 0x21435047, 0xb7239fc9, 0x11be4eda),
         0x00000000, 0x00380000, 0x00e00000, 0x00d80000);
    Next(h, m, 53, Regs(0x1797e228, 0x89fbd41d, 0x1f919cb0, 0x21435047, 0xb7239fc9),
         0x000df000, 0x0004c600, 0x000ed600, 0x0380e000);
    Next(h, m, 54, Regs(0x431d65bc, 0x1797e228, 0x627ef507, 0x1f919cb0, 0x21435047),
         0x00380000, 0x0000e000, 0x0000e000, 0x004f0000);
    Next(h, m, 55, Regs(0x2bdbb8cb, 0x431d65bc, 0x05e5f88a, 0x627ef507, 0x1f919cb0),
         0x0004c600, 0x0070ee00, 0x01cea600, 0x00000000);
    Next(h, m, 56, Regs(0x6da72e7f, 0x2bdbb8cb, 0x10c7596f, 0x05e5f88a, 0x627ef507),
         0x0000e000, 0x000ee000, 0x00000000, 0x070e0000);
    Next(h, m, 57, Regs(0xa8495a9b, 0x6da72e7f, 0xcaf6ee32, 0x10c7596f, 0x05e5f88a),
         0x0070ee00, 0x00369e00, 0x00d80000, 0x00ee0000);
    Next(h, m, 58, Regs(0xe785655a, 0xa8495a9b, 0xdb69cb9f, 0xcaf6ee32, 0x10c7596f),
         0x000ee000, 0x00e00000, 0x0380e000, 0x03751c00);
    Next(h, m, 59, Regs(0x5b086c42, 0xe785655a, 0xea1256a6, 0xdb69cb9f, 0xcaf6ee32),
         0x00369e00, 0x000ed600, 0x004f0000, 0x0e000000);
    Next(h, m, 60, Regs(0xa65818f7, 0x5b086c42, 0xb9e15956, 0xea1256a6, 0xdb69cb9f),
         0x00e00000, 0x0000e000, 0x00000000, 0x00e0e000);
    Next(h, m, 61, Regs(0x7aab101b, 0xa65818f7, 0x96c21b10, 0xb9e15956, 0xea1256a6),
         0x000ed600, 0x01cea600, 0x070e0000, 0x00363800);
    Next(h, m, 62, Regs(0x93614c9c, 0x7aab101b, 0xe996063d, 0x96c21b10, 0xb9e15956),
         0x0000e000, 0x00000000, 0x00ee0000, 0x1cee9000);
    Next(h, m, 63, Regs(0xf66d9bf4, 0x93614c9c, 0xdeaac406, 0xe996063d, 0x96c21b10),
         0x01cea600, 0x00d80000, 0x03751c00, 0x00000000);
  }

  lemma Second80(h: Regs, m: seq<bv32>)
    requires Have(m, 64, 0x00000000, 0x00d80000, 0x0380e000, 0x004f0000, 0x00000000, 0x070e0000, 0x00ee0000, 0x03751c00,
                  0x0e000000, 0x00e0e000, 0x00363800, 0x1cee9000, 0x00000000, 0x0df09000, 0x3800e000, 0x04c77400)
    requires Rounds(h, m, 64) == Regs(0xd504902b, 0xf66d9bf4, 0x24d85327, 0xdeaac406, 0xe996063d)
    ensures Have(m, 80, 0x00e0e000, 0x70ee0000, 0x0ee35800, 0x369ee000, 0xe0000000, 0x0ed1a800, 0x00e00000, 0xcea51001,
                  0x000ee000, 0xd800e000, 0x80e0e003, 0x4f1c0000, 0x00000000, 0x0e0d5807, 0xee380000, 0x7518c803)
    ensures Rounds(h, m, 80) == Regs(0x906fd62c, 0x58c0aac0, 0xb6a55520, 0x74e9b89d, 0x9af00b7f)
  {
    hide W, Rounds;
    Next(h, m, 64, Regs(0xd504902b, 0xf66d9bf4, 0x24d85327, 0xdeaac406, 0xe996063d),
         0x00000000, 0x0380e000, 0x0e000000, 0x0df09000);
    Next(h, m, 65, Regs(0x60a9da62, 0xd504902b, 0x3d9b66fd, 0x24d85327, 0xdeaac406),
         0x00d80000, 0x004f0000, 0x00e0e000, 0x3800e000);
    Next(h, m, 66, Regs(0x8b687819, 0x60a9da62, 0xf541240a, 0x3d9b66fd, 0x24d85327),
         0x0380e000, 0x00000000, 0x00363800, 0x04c77400);
    Next(h, m, 67, Regs(0x083e90c3, 0x8b687819, 0x982a7698, 0xf541240a, 0x3d9b66fd),
         0x004f0000, 0x070e0000, 0x1cee9000, 0x00e0e000);
    Next(h, m, 68, Regs(0xf6226bbf, 0x083e90c3, 0x62da1e06, 0x982a7698, 0xf541240a),
         0x00000000, 0x00ee0000, 0x00000000, 0x70ee0000);
    Next(h, m, 69, Regs(0x76c0563b, 0xf6226bbf, 0xc20fa430, 0x62da1e06, 0x982a7698),
         0x070e0000, 0x03751c00, 0x0df09000, 0x0ee35800);
    Next(h, m, 70, Regs(0x989dd165, 0x76c0563b, 0xfd889aef, 0xc20fa430, 0x62da1e06),
         0x00ee0000, 0x0e000000, 0x3800e000, 0x369ee000);
    Next(h, m, 71, Regs(0x8b2c7573, 0x989dd165, 0xddb0158e, 0xfd889aef, 0xc20fa430),
         0x03751c00, 0x00e0e000, 0x04c77400, 0xe0000000);
    Next(h, m, 72, Regs(0xae1b8e7b, 0x8b2c7573, 0x66277459, 0xddb0158e, 0xfd889aef),
         0x0e000000, 0x00363800, 0x00e0e000, 0x0ed1a800);
    Next(h, m, 73, Regs(0xca1840de, 0xae1b8e7b, 0xe2cb1d5c, 0x66277459, 0xddb0158e),
         0x00e0e000, 0x1cee9000, 0x70ee0000, 0x00e00000);
    Next(h, m, 74, Regs(0x16f3babb, 0xca1840de, 0xeb86e39e, 0xe2cb1d5c, 0x66277459),
         0x00363800, 0x00000000, 0x0ee35800, 0xcea51001);
    Next(h, m, 75, Regs(0xd28d83ad, 0x16f3babb, 0xb2861037, 0xeb86e39e, 0xe2cb1d5c),
         0x1cee9000, 0x0df09000, 0x369ee000, 0x000ee000);
    Next(h, m, 76, Regs(0x6bc02dfe, 0xd28d83ad, 0xc5bceeae, 0xb2861037, 0xeb86e39e),
         0x00000000, 0x3800e000, 0xe0000000, 0xd800e000);
    Next(h, m, 77, Regs(0xd3a6e275, 0x6bc02dfe, 0x74a360eb, 0xc5bceeae, 0xb2861037),
         0x0df09000, 0x04c77400, 0x0ed1a800, 0x80e0e003);
    Next(h, m, 78, Regs(0xda955482, 0xd3a6e275, 0x9af00b7f, 0x74a360eb, 0xc5bceeae),
         0x3800e000, 0x00e0e000, 0x00e00000, 0x4f1c0000);
    Next(h, m, 79, Regs(0x58c0aac0, 0xda955482, 0x74e9b89d, 0x9af00b7f, 0x74a360eb),
         0x04c77400, 0x70ee0000, 0xcea51001, 0x00000000);
  }

  /** The second block, from the hash value of the first */
  lemma SecondBlock(m: seq<bv32>)
    requires Have(m, 0, 0x00000000, 0x00000000, 0x00000000, 0x00000000, 0x00000000, 0x00000000, 0x00000000, 0x00000000,
                  0x00000000, 0x00000000, 0x00000000, 0x00000000, 0x00000000, 0x00000000, 0x00000000, 0x000001c0)
    ensures Compress(Regs(0xf4286818, 0xc37b27ae, 0x0408f581, 0x84677148, 0x4a566572), m) ==
            Regs(0x84983e44, 0x1c3bd26e, 0xbaae4aa1, 0xf95129e5, 0xe54670f1)
  {
    hide W, Compress;
    var h := Regs(0xf4286818, 0xc37b27ae, 0x0408f581, 0x84677148, 0x4a566572);
    assert Rounds(h, m, 0) == h;
    hide Rounds;
    Second16(h, m);
    Second32(h, m);
    Second48(h, m);
    Second64(h, m);
    Second80(h, m);
    Compressed(h, m, Regs(0x906fd62c, 0x58c0aac0, 0xb6a55520, 0x74e9b89d, 0x9af00b7f));
  }

  /** "abcdbcdecdefdefgefghfghighijhijkijkljklmklmnlmnomnopnopq" */
  const MESSAGE: seq<bv8> :=
    [0x61, 0x62, 0x63, 0x64, 0x62, 0x63, 0x64, 0x65, 0x63, 0x64, 0x65, 0x66, 0x64, 0x65, 0x66, 0x67] +
    [0x65, 0x66, 0x67, 0x68, 0x66, 0x67, 0x68, 0x69, 0x67, 0x68, 0x69, 0x6a, 0x68, 0x69, 0x6a, 0x6b] +
    [0x69, 0x6a, 0x6b, 0x6c, 0x6a, 0x6b, 0x6c, 0x6d, 0x6b, 0x6c, 0x6d, 0x6e, 0x6c, 0x6d, 0x6e, 0x6f] +
    [0x6d, 0x6e, 0x6f, 0x70, 0x6e, 0x6f, 0x70, 0x71]

  /** The padded message */
  const FIRST_BLOCK: seq<bv8> := MESSAGE + [0x80, 0, 0, 0, 0, 0, 0, 0]

  const SECOND_BLOCK: seq<bv8> := Zeros(56) + [0, 0, 0, 0, 0, 0, 0x01, 0xc0]

  lemma LengthOfMessage()
    ensures LengthBytes(448) == [0, 0, 0, 0, 0, 0, 0x01, 0xc0]
  {
    hide ToByte;
    ToByteIs(0);
    ToByteIs(1);
    ToByteIs(192);
  }

  lemma MessagePadded()
    ensures |FIRST_BLOCK| == |SECOND_BLOCK| == 64 && Padded(MESSAGE) == FIRST_BLOCK + SECOND_BLOCK
  {
    LengthOfMessage();
    hide LengthBytes;
    assert Zeros(63) == [0, 0, 0, 0, 0, 0, 0] + Zeros(56);
  }

  lemma FirstSixteen(m: seq<bv32>)
    requires |m| == 16
    ensures forall t: nat :: t < 16 ==> W(m, t) == m[t]
  {}

  lemma FirstWords()
    ensures |FIRST_BLOCK| == 64
    ensures var m := BlockWords(FIRST_BLOCK);
            Have(m, 0, 0x61626364, 0x62636465, 0x63646566, 0x64656667, 0x65666768, 0x66676869, 0x6768696a, 0x68696a6b,
                  0x696a6b6c, 0x6a6b6c6d, 0x6b6c6d6e, 0x6c6d6e6f, 0x6d6e6f70, 0x6e6f7071, 0x80000000, 0x00000000)
  {
    hide W;
    FirstSixteen(BlockWords(FIRST_BLOCK));
  }

  lemma SecondWords()
    ensures |SECOND_BLOCK| == 64
    ensures var m := BlockWords(SECOND_BLOCK);
            Have(m, 0, 0x00000000, 0x00000000, 0x00000000, 0x00000000, 0x00000000, 0x00000000, 0x00000000, 0x00000000,
                  0x00000000, 0x00000000, 0x00000000, 0x00000000, 0x00000000, 0x00000000, 0x00000000, 0x000001c0)
  {
    hide W;
    FirstSixteen(BlockWords(SECOND_BLOCK));
  }

  /** The published digest */
  lemma ExampleDigest()
    ensures Sha1Of(MESSAGE) == [
      0x84, 0x98, 0x3e, 0x44, 0x1c, 0x3b, 0xd2, 0x6e, 0xba, 0xae,
      0x4a, 0xa1, 0xf9, 0x51, 0x29, 0xe5, 0xe5, 0x46, 0x70, 0xf1]
  {
    hide BlockWords, Padded, Have, Compress;
    MessagePadded();
    FirstWords();
    SecondWords();
    var p := Padded(MESSAGE);
    assert p[..64] == FIRST_BLOCK && p[64..] == SECOND_BLOCK;
    assert FIRST_BLOCK[..0] == [] && FIRST_BLOCK[0..] == FIRST_BLOCK;
    FirstBlock(BlockWords(FIRST_BLOCK));
    SecondBlock(BlockWords(SECOND_BLOCK));
    assert HashBlocks(FIRST_BLOCK) == Compress(INITIAL, BlockWords(FIRST_BLOCK));
    assert HashBlocks(p) == Compress(HashBlocks(FIRST_BLOCK), BlockWords(SECOND_BLOCK));
  }
}
