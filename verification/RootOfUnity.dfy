/** The root of unity the program computes, and the proof that it is none: the exponent it uses is not
    (p - 1) / 2^28, and no half power of the result is -1. Were it so, 5^(2^28) would be 1 modulo P;
    squaring 5 twenty-eight times shows that it is not. */
module RootOfUnity {
  import opened Arith
  import opened Montgomery
  import opened Primes
  import opened Transform

  /** The exponent's limbs as the program spells them. */
  const ROOT_EXPONENT: U256 := [0x9b9709143e1f593f, 0x181585d2833e8487, 0xe131a029b85045b6, 0x0000000030644e72]
  const EXPONENT: nat := 0x30644e72e131a029b85045b6181585d2833e84879b9709143e1f593f

  lemma ExponentValue()
    ensures Value(ROOT_EXPONENT) == EXPONENT && EXPONENT != (P - 1) / 0x1000_0000
  {
    Value4(ROOT_EXPONENT);
  }

  // ── 5^(2^28) modulo P by repeated squaring ───────────────────────

  /** One squaring of a known residue: x*x = y + q P. */
  lemma Squared(e: nat, x: nat, q: nat, y: nat) returns (e': nat)
    requires Cong(Pow(5, e), x, P) && x * x == y + q * P
    ensures e' == 2 * e && Cong(Pow(5, e'), y, P)
  {
    e' := 2 * e;
    PowAdd(5, e, e);
    CongMul(Pow(5, e), x, Pow(5, e), x, P);
    CongIntro(x * x, y, q, P);
    CongTrans(Pow(5, e'), x * x, y, P);
  }

  lemma SmallSquarings() returns (e: nat)
    ensures e == 64 && Cong(Pow(5, e), 0x184f03e93ff9f4daa797ed6e38ed64bf6a1f01, P)
  {
    assert Pow(5, 1) == 5 * Pow(5, 0);
    CongRefl(5, P);
    e := Squared(1, 5, 0, 25);
    e := Squared(e, 25, 0, 625);
    e := Squared(e, 625, 0, 390625);
    e := Squared(e, 390625, 0, 152587890625);
    e := Squared(e, 152587890625, 0, 23283064365386962890625);
    e := Squared(e, 23283064365386962890625, 0, 542101086242752217003726400434970855712890625);
  }

  lemma Squarings0(e: nat) returns (e': nat)
    requires Cong(Pow(5, e), 0x184f03e93ff9f4daa797ed6e38ed64bf6a1f01, P)
    ensures e' == 0x800 * e && Cong(Pow(5, e'), 0x1075b24518e9b4682ac16cedbfd9b59b53c97f4f00966435c715f9d80d6421f2, P)
  {
    e' := e;
    e' := Squared(e', 0x184f03e93ff9f4daa797ed6e38ed64bf6a1f01,
                  0xc360183527a,
                  0x9a124c2c2951c04731c65822f33d72fd65c697f91e0b0f96ae35172cd11eb87);
    e' := Squared(e', 0x9a124c2c2951c04731c65822f33d72fd65c697f91e0b0f96ae35172cd11eb87,
                  0x1ea89af32396daaeae1e96209945a4fc16618c878854983732f177486089ead,
                  0x276c99d9c246532d10b8672325091271e8e9b23d217b1fea77fe0c25a0968284);
    e' := Squared(e', 0x276c99d9c246532d10b8672325091271e8e9b23d217b1fea77fe0c25a0968284,
                  0x201e5165bb2b5ce9fc8097c72412874bdb9c04f24b1498193da38a12d9c5661b,
                  0x10921cc7d86382291b4ec0265776fe1a2cf541ea27acc39cf2d1837d0b74edf5);
    e' := Squared(e', 0x10921cc7d86382291b4ec0265776fe1a2cf541ea27acc39cf2d1837d0b74edf5,
                  0x5ac9f0d988678f0d97576f7f0778ffd544d681dfc22336e4f74f696d8ae931a,
                  0x17cb6d137ead7dfe3f6b009c1cc9f791979b4324008399f348cd66b05888f95f);
    e' := Squared(e', 0x17cb6d137ead7dfe3f6b009c1cc9f791979b4324008399f348cd66b05888f95f,
                  0xbb333890477dadb2baccd43be7bffa75aef8feb8c934f57864904166df79f5c,
                  0x2236a17e6850ff86be1435fe3eebddcb00ec6fcc8480444601e2540a89e251e5);
    e' := Squared(e', 0x2236a17e6850ff86be1435fe3eebddcb00ec6fcc8480444601e2540a89e251e5,
                  0x18306be1e520c6a1b292a36c3ef2468d4bb928f3d74c1d14bf33f84115784be9,
                  0x1222f9ab0a8b27852ade2f12e17f64eb0a72cd2471059e150d2d5e69470e6af0);
    e' := Squared(e', 0x1222f9ab0a8b27852ade2f12e17f64eb0a72cd2471059e150d2d5e69470e6af0,
                  0x6cc205cfc8256d70db05fb2439a56a148baa93ff72d43990da3e20488a56593,
                  0x2e730a32a4c38435534a74c64e1e650875eb0e18ec5076b31e540559a6463b6d);
    e' := Squared(e', 0x2e730a32a4c38435534a74c64e1e650875eb0e18ec5076b31e540559a6463b6d,
                  0x2c95bbc760aa3943ac7885480c11d046593ba69056ece61ebfb51ae309e7ceb0,
                  0x87edb9d4a5de1856f54cc8b40ee88ac698e4a1ab39cf0a478163067df7f9db9);
    e' := Squared(e', 0x87edb9d4a5de1856f54cc8b40ee88ac698e4a1ab39cf0a478163067df7f9db9,
                  0x17dcfed77a01f5dae574094542993833a03300dab869c1ad4a32c8ce63d8b06,
                  0x150d6a2779fd0014dd47d6a27782c00a7b3540558dec47ca389b6defa67ce4ab);
    e' := Squared(e', 0x150d6a2779fd0014dd47d6a27782c00a7b3540558dec47ca389b6defa67ce4ab,
                  0x9289d0dd8bc6299a1eef391c0b692bed0c227cc8cc28ca85e5065c423c1daaa,
                  0x28aae13c414dffdfb7b568f72ece890a4c24d1d570aa75735f6f666492272f8f);
    e' := Squared(e', 0x28aae13c414dffdfb7b568f72ece890a4c24d1d570aa75735f6f666492272f8f,
                  0x222d17431b81769711df860a59baf119ff4f5f0f9bb4242ed19fa3f18503afef,
                  0x1075b24518e9b4682ac16cedbfd9b59b53c97f4f00966435c715f9d80d6421f2);
  }

  lemma Squarings1(e: nat) returns (e': nat)
    requires Cong(Pow(5, e), 0x1075b24518e9b4682ac16cedbfd9b59b53c97f4f00966435c715f9d80d6421f2, P)
    ensures e' == 0x800 * e && Cong(Pow(5, e'), 0xba49465f79ce3ca21f1ec72be9f9a263f544c14cc40ac6ba1458af683d28e01, P)
  {
    e' := e;
    e' := Squared(e', 0x1075b24518e9b4682ac16cedbfd9b59b53c97f4f00966435c715f9d80d6421f2,
                  0x59939bc606df397d4bbda3311cbe6c3e553a79f248e530f9483b2a337c15d1e,
                  0x29ca746b00dd45a432793a628de099549ed3d6f350f0ddd51c36d3c5ceeba6);
    e' := Squared(e', 0x29ca746b00dd45a432793a628de099549ed3d6f350f0ddd51c36d3c5ceeba6,
                  0x24171c54cc349325874e4944adb241ec43a7ba49a509a96672cd2b61f721,
                  0x46af6b7c29160adf8cdbca4f0e5f27bdb5de5e30c27972d3bd3d22278b03883);
    e' := Squared(e', 0x46af6b7c29160adf8cdbca4f0e5f27bdb5de5e30c27972d3bd3d22278b03883,
                  0x673fb7c2ab4b9f998bd15fd8e8e17aec33a7e9f65f05e2e1cba47d72c9fdd4,
                  0x2a5126e8e0691477bf5eab35cb672f350c9bf3f22196e35a3b7f5e45dcf9535);
    e' := Squared(e', 0x2a5126e8e0691477bf5eab35cb672f350c9bf3f22196e35a3b7f5e45dcf9535,
                  0x250138ef25a1865deff2659c1383cf95a931cec9557317eb2099d467f61d03,
                  0x2ea80c564f66abd0f3c8c0273b97dbf58c0df82d93ce8aa1ce2ed662ecb69ff6);
    e' := Squared(e', 0x2ea80c564f66abd0f3c8c0273b97dbf58c0df82d93ce8aa1ce2ed662ecb69ff6,
                  0x2cfbb8b646bf9eed3fa16292eb5c7c764ba59943026dd6cce33b91a7f1f9f473,
                  0x10fc2910a6e4274f9459a4827b772a91ca380498907e064d5ce8a5b0a3c18bf1);
    e' := Squared(e', 0x10fc2910a6e4274f9459a4827b772a91ca380498907e064d5ce8a5b0a3c18bf1,
                  0x5f628287c609f0e3123fda6e6760b5e3342375d36e45a5e827daf7ea6cda151,
                  0x23b22b0b534330fff785de57ffe28e175b25199e6d6b2e40208f82ab9d13f790);
    e' := Squared(e', 0x23b22b0b534330fff785de57ffe28e175b25199e6d6b2e40208f82ab9d13f790,
                  0x1a54b8915f294d875e7a1e12a7a552c2de903e63cee66eaffee9c4b3b737fcbf,
                  0x138da077d1d9e793f6c3b1911ae2d25ca2bba4eb6a6ed098adc64b41878f3441);
    e' := Squared(e', 0x138da077d1d9e793f6c3b1911ae2d25ca2bba4eb6a6ed098adc64b41878f3441,
                  0x7e693a288a8e539d5090ed9f4ee1ac4ae4290b7aa8f63f440f3a07339ebf9fa,
                  0x8c10a28a6c287b552f41d1bab7a867557be368656828d2232f350de5f5c7e87);
    e' := Squared(e', 0x8c10a28a6c287b552f41d1bab7a867557be368656828d2232f350de5f5c7e87,
                  0x1956736fc1a9c2dd32c88f17fe32fa77549c67409e5f5a578d03661303d0570,
                  0x18a6926aa3cafa342a0620712fdb4e292473494dfd53618c8097dead315425c1);
    e' := Squared(e', 0x18a6926aa3cafa342a0620712fdb4e292473494dfd53618c8097dead315425c1,
                  0xc8e96e101d5b22d598500f7e4be63153bbcd70274fc914471878731764587da,
                  0x2e90f4242ce7ce4bde7289124535b4dc7ad000b168b7ab187671ba3ad7f3d3a7);
    e' := Squared(e', 0x2e90f4242ce7ce4bde7289124535b4dc7ad000b168b7ab187671ba3ad7f3d3a7,
                  0x2ccf3b60ab464af41d7453a1f53c6d79124e2635cf5b1f2fafdc66427c3428f0,
                  0xba49465f79ce3ca21f1ec72be9f9a263f544c14cc40ac6ba1458af683d28e01);
  }

  lemma PowerIsNotOne(e: nat)
    requires e == 0x1000_0000
    ensures !Cong(Pow(5, e), 1, P)
  {
    var e' := SmallSquarings();
    e' := Squarings0(e');
    e' := Squarings1(e');
    assert e' == e;
    var y: nat := 0xba49465f79ce3ca21f1ec72be9f9a263f544c14cc40ac6ba1458af683d28e01;
    if Cong(Pow(5, e), 1, P) {
      CongSym(Pow(5, e), y, P);
      CongTrans(y, Pow(5, e), 1, P);
      CongUnique(y, 1, P);
    }
  }

  // ── From a half turn to 5^(2^28) = 1 ─────────────────────────────

  const COFACTOR_A: nat := 0x19d9dd6df668f9d50a0e5c80a599f25e24291733aba00a5cc0a08af7d
  const COFACTOR_B: nat := 0x19d9dd6df668f9d50a0e5c806d48fba87e8e77dde4993a37943998be

  /** The exponent is coprime to (p - 1) / 2^28. */
  lemma BezoutForExponent()
    ensures COFACTOR_A * EXPONENT * 0x1000_0000 == COFACTOR_B * (P - 1) + 0x1000_0000
  {}

  lemma PowerOfOne(b: int, e: nat, k: nat)
    requires Cong(Pow(b, e), 1, P)
    ensures e * k >= 0 && Cong(Pow(b, e * k), 1, P)
  {
    PowPow(b, e, k);
    CongPow(Pow(b, e), 1, k, P);
    PowOne(k);
  }

  lemma UnitPowerReduces(a: nat, n: nat, c: nat, d: nat, r: nat)
    requires Cong(Pow(5, a), 1, P) && Cong(Pow(5, n), 1, P) && a * c == n * d + r
    ensures Cong(Pow(5, r), 1, P)
  {
    hide *;
    PowerOfOne(5, a, c);
    PowerOfOne(5, n, d);
    PowAdd(5, n * d, r);
    CongMul(Pow(5, n * d), 1, Pow(5, r), Pow(5, r), P) by { CongRefl(Pow(5, r), P); }
    CongSym(Pow(5, n * d + r), Pow(5, r), P);
    CongTrans(Pow(5, r), Pow(5, n * d + r), 1, P);
  }

  /** For every supported size, the program's root w = 5^(exponent * 2^(28 - l)) is not a half turn. */
  lemma ShippedRootIsNoRoot(w: int, l: nat, e: nat)
    requires IsPrime(P) && 1 <= l <= 28 && e == EXPONENT * Pow(2, 28 - l)
    requires Cong(w, Pow(5, e), P)
    ensures !HalfTurn(w, l, P)
  {
    if HalfTurn(w, l, P) {
      var h := Pow(2, l - 1);
      CongPow(w, Pow(5, e), h, P);
      CongSym(Pow(w, h), Pow(Pow(5, e), h), P);
      CongTrans(Pow(Pow(5, e), h), Pow(w, h), -1, P);
      PowPow(5, e, h);
      var x := Pow(5, e * h);
      CongMul(x, -1, x, -1, P);
      PowAdd(5, e * h, e * h);
      var a := e * h + e * h;
      FullExponent(e, h, l);
      FiveIsUnit();
      Fermat(5, P);
      BezoutForExponent();
      UnitPowerReduces(a, P - 1, COFACTOR_A, COFACTOR_B, 0x1000_0000);
      PowerIsNotOne(0x1000_0000);
    }
  }

  lemma FiveIsUnit()
    ensures !Cong(5, 0, P)
  {
    SmallNonzero(5, P);
  }

  lemma FullExponent(e: nat, h: nat, l: nat)
    requires 1 <= l <= 28 && e == EXPONENT * Pow(2, 28 - l) && h == Pow(2, l - 1)
    ensures e * h + e * h == EXPONENT * 0x1000_0000
  {
    PowAdd(2, 28 - l, l - 1);
    TwoTo27();
    MulAssoc(EXPONENT, Pow(2, 28 - l), h);
  }

  lemma TwoTo27()
    ensures Pow(2, 27) == 0x800_0000
  {
    PowAdd(2, 9, 9);
    PowAdd(2, 18, 9);
  }
}
