/**
 * The search for a free object id (src/vfs.c:67-100). Container ids are tried one after the other;
 * resource ids are hashed from the path, and a taken hash is hashed again.
 */
module IdProbe {
  import opened CrcRegister
  import opened Crc32

  /** uint32_t */
  type Id = i: int | 0 <= i < 0x1_0000_0000

  type Path = seq<Byte>

  const UINT_MAX: Id := 0xFFFF_FFFF
  const STARTING_ENTRY_ID_XBOX360 := 100000

  /** The first id that is tried. */
  function Start(xbox: bool): (start: Id)
    ensures 0 < start < UINT_MAX
  {
    if xbox then 1 + STARTING_ENTRY_ID_XBOX360 else 1
  }

  /** i++ */
  function Next(i: Id): Id {
    if i == UINT_MAX then 0 else i + 1
  }

  /** crc32(i, fullpath, strlen(fullpath)) */
  function Hashed(i: Id, path: Path): Id {
    Crc(i as bv32, path) as int
  }

  datatype Outcome =
    | Free(id: Id)     // an id that is not taken
    | Exhausted        // the loop condition became false
    | Searching(i: Id) // the loop variable in front of the next round

  predicate Settled(o: Outcome) {
    !o.Searching?
  }

  /** The state of the search over hashed ids after n rounds of the loop, from loop variable i. */
  function Rounds(taken: set<Id>, path: Path, i: Id, n: nat): Outcome
    decreases n
  {
    if i == UINT_MAX then Exhausted
    else if n == 0 then Searching(i)
    else
      var j := Hashed(i, path);
      if j !in taken then Free(j) else Rounds(taken, path, Next(j), n - 1)
  }

  /** The search ends. */
  ghost predicate Ends(taken: set<Id>, path: Path, i: Id) {
    exists n: nat :: Settled(Rounds(taken, path, i, n))
  }

  /** The search ends with an id. */
  ghost predicate Finds(taken: set<Id>, path: Path, i: Id) {
    exists n: nat :: Rounds(taken, path, i, n).Free?
  }

  lemma {:induction false} MoreRounds(taken: set<Id>, path: Path, i: Id, n: nat, m: nat)
    requires Settled(Rounds(taken, path, i, n)) && n <= m
    ensures Rounds(taken, path, i, m) == Rounds(taken, path, i, n)
    decreases n
  {
    hide Hashed;
    if i != UINT_MAX && n > 0 {
      var j := Hashed(i, path);
      if j in taken {
        MoreRounds(taken, path, Next(j), n - 1, m - 1);
      }
    }
  }

  /** All searches that end have the same outcome. */
  lemma OneOutcome(taken: set<Id>, path: Path, i: Id, n: nat)
    requires Settled(Rounds(taken, path, i, n))
    ensures forall m: nat | Settled(Rounds(taken, path, i, m)) ::
              Rounds(taken, path, i, m) == Rounds(taken, path, i, n)
  {
    forall m: nat | Settled(Rounds(taken, path, i, m))
      ensures Rounds(taken, path, i, m) == Rounds(taken, path, i, n)
    {
      if n <= m {
        MoreRounds(taken, path, i, n, m);
      } else {
        MoreRounds(taken, path, i, m, n);
      }
    }
  }

  lemma {:induction false} FoundIsFree(taken: set<Id>, path: Path, i: Id, n: nat)
    requires Rounds(taken, path, i, n).Free?
    ensures Rounds(taken, path, i, n).id !in taken
    decreases n
  {
    hide Hashed;
    var j := Hashed(i, path);
    if j in taken {
      FoundIsFree(taken, path, Next(j), n - 1);
    }
  }

  // ---- the ids that are tried ----

  /** The CRC of the path, continued from i. */
  function CrcFrom(i: Id, path: Path): Id {
    Crc(i as bv32, path) as int
  }

  /** The id tried in round k, when the first hash continues from start. */
  function Tried(path: Path, start: Id, k: nat): Id {
    if k == 0 then CrcFrom(start, path) else CrcFrom((Tried(path, start, k - 1) + 1) % 0x1_0000_0000, path)
  }

  /** Round k is the first to try an id that is not taken, and the loop variable has not come to 2^32 - 1 before. */
  predicate Hits(taken: set<Id>, path: Path, start: Id, k: nat) {
    && Tried(path, start, k) !in taken
    && forall j: nat | j < k :: Tried(path, start, j) in taken && Tried(path, start, j) != 0xFFFF_FFFE
  }

  /** Whatever round is the first to try an id that is not taken, id is that one. */
  ghost predicate FirstOfTried(taken: set<Id>, path: Path, start: Id, id: Id) {
    forall k: nat | Hits(taken, path, start, k) :: id == Tried(path, start, k)
  }

  lemma HashedIsCrc(i: Id, path: Path)
    ensures Hashed(i, path) == CrcFrom(i, path)
  {
    hide Crc;
  }

  lemma {:induction false} TriedLater(path: Path, start: Id, k: nat)
    ensures Tried(path, start, k + 1) == Tried(path, Next(Tried(path, start, 0)), k)
    decreases k
  {
    hide CrcFrom;
    if k > 0 {
      TriedLater(path, start, k - 1);
    }
  }

  /** The search finds the first id tried that is not taken. */
  lemma {:induction false} FirstTried(taken: set<Id>, path: Path, start: Id, k: nat, n: nat)
    requires start < 0xFFFF_FFFF && k < n && Hits(taken, path, start, k)
    ensures Rounds(taken, path, start, n) == Free(Tried(path, start, k))
    decreases k
  {
    hide CrcFrom, Hashed;
    HashedIsCrc(start, path);
    if k > 0 {
      var i := Next(Tried(path, start, 0));
      forall j: nat | j < k
        ensures Tried(path, start, j + 1) == Tried(path, i, j)
      {
        TriedLater(path, start, j);
      }
      assert Tried(path, start, 0) in taken && Tried(path, start, 0) != 0xFFFF_FFFE;
      FirstTried(taken, path, i, k - 1, n - 1);
    }
  }

  // ---- how long the search can take ----

  /** The search runs into the taken id j after k rounds. */
  lemma {:induction false} RunsInto(taken: set<Id>, j: Id, path: Path, i: Id, m: nat) returns (k: nat)
    requires j in taken && Rounds(taken - {j}, path, i, m) == Free(j)
    ensures 1 <= k <= m
    ensures forall n: nat | n < k :: !Settled(Rounds(taken, path, i, n))
    ensures forall n: nat | n >= k :: Rounds(taken, path, i, n) == Rounds(taken, path, Next(j), n - k)
    decreases m
  {
    hide Hashed;
    var h := Hashed(i, path);
    if h == j {
      k := 1;
    } else {
      var k1 := RunsInto(taken, j, path, Next(h), m - 1);
      k := k1 + 1;
      forall n: nat | n < k
        ensures !Settled(Rounds(taken, path, i, n))
      {
        if n > 0 {
          assert !Settled(Rounds(taken, path, Next(h), n - 1));
        }
      }
      forall n: nat | n >= k
        ensures Rounds(taken, path, i, n) == Rounds(taken, path, Next(j), n - k)
      {
        assert Rounds(taken, path, Next(h), n - 1) == Rounds(taken, path, Next(j), n - 1 - k1);
      }
    }
  }

  /** A taken id whose search leads back to itself is never left. */
  lemma {:induction false} Cycle(taken: set<Id>, j: Id, path: Path, m: nat, n: nat)
    requires j in taken && Rounds(taken - {j}, path, Next(j), m) == Free(j)
    ensures !Settled(Rounds(taken, path, Next(j), n))
    decreases n
  {
    hide Rounds;
    var k := RunsInto(taken, j, path, Next(j), m);
    if n >= k {
      Cycle(taken, j, path, m, n - k);
    }
  }

  /** Freeing one taken id j changes the outcome at most to finding j, and never delays it. */
  lemma {:induction false} WithoutOne(taken: set<Id>, j: Id, path: Path, i: Id, n: nat)
    requires Settled(Rounds(taken, path, i, n))
    ensures Rounds(taken - {j}, path, i, n) == Rounds(taken, path, i, n)
            || Rounds(taken - {j}, path, i, n) == Free(j)
    decreases n
  {
    hide Hashed;
    if i != UINT_MAX && n > 0 {
      var h := Hashed(i, path);
      if h in taken && h != j {
        WithoutOne(taken, j, path, Next(h), n - 1);
      }
    }
  }

  /** A search that ends and does not meet j ends in the same way when j is taken. */
  lemma {:induction false} WithOne(taken: set<Id>, j: Id, path: Path, i: Id, n: nat)
    requires Settled(Rounds(taken - {j}, path, i, n)) && Rounds(taken - {j}, path, i, n) != Free(j)
    ensures Rounds(taken, path, i, n) == Rounds(taken - {j}, path, i, n)
    decreases n
  {
    hide Hashed;
    if i != UINT_MAX && n > 0 {
      var h := Hashed(i, path);
      if h in taken && h != j {
        WithOne(taken, j, path, Next(h), n - 1);
      }
    }
  }

  /**
   * A search that ends at all ends within one round more than there are taken ids: it meets no taken
   * id twice.
   */
  lemma {:induction false} EndsSoon(taken: set<Id>, path: Path, i: Id, n: nat)
    requires Settled(Rounds(taken, path, i, n))
    ensures Settled(Rounds(taken, path, i, |taken| + 1))
    decreases |taken|
  {
    hide Hashed;
    if i != UINT_MAX {
      var j := Hashed(i, path);
      if j in taken {
        var rest := taken - {j};
        WithoutOne(taken, j, path, Next(j), n - 1);
        if Rounds(rest, path, Next(j), n - 1) == Free(j) {
          Cycle(taken, j, path, n - 1, n - 1);
          assert false;
        }
        EndsSoon(rest, path, Next(j), n - 1);
        MoreRounds(rest, path, Next(j), n - 1, n + |rest|);
        MoreRounds(rest, path, Next(j), |rest| + 1, n + |rest|);
        WithOne(taken, j, path, Next(j), |rest| + 1);
      }
    }
  }

  /** Whether the search ends can be decided by trying one round more than there are taken ids. */
  lemma EndsIff(taken: set<Id>, path: Path, i: Id)
    ensures Ends(taken, path, i) <==> Settled(Rounds(taken, path, i, |taken| + 1))
  {
    if Ends(taken, path, i) {
      var n: nat :| Settled(Rounds(taken, path, i, n));
      EndsSoon(taken, path, i, n);
    }
  }

  /** The same for finding an id, so a caller can tell beforehand. */
  lemma FindsIff(taken: set<Id>, path: Path, i: Id)
    ensures Finds(taken, path, i) <==> Rounds(taken, path, i, |taken| + 1).Free?
  {
    if Finds(taken, path, i) {
      var n: nat :| Rounds(taken, path, i, n).Free?;
      EndsSoon(taken, path, i, n);
      OneOutcome(taken, path, i, n);
    }
  }

  // ---- a search that never ends ----

  // "/aaagcvmgq"
  const LOOPING: Path := [0x2F, 0x61, 0x61, 0x61, 0x67, 0x63, 0x76, 0x6D, 0x67, 0x71]

  lemma LoopingStep0()
    ensures Update(0xfffffffe, 0x2F) == 0xf12b1dbd
  {
    assert ROWD[1] == 0xf1d4e242;
  }

  lemma LoopingStep1()
    ensures Update(0xf12b1dbd, 0x61) == 0x8f94b5e2
  {
    assert ROWD[12] == 0x8f659eff;
  }

  lemma LoopingStep2()
    ensures Update(0x8f94b5e2, 0x61) == 0x743e462f
  {
    assert ROW8[3] == 0x74b1d29a;
  }

  lemma LoopingStep3()
    ensures Update(0x743e462f, 0x61) == 0x911052d1
  {
    assert ROW4[14] == 0x91646c97;
  }

  lemma LoopingStep4()
    ensures Update(0x911052d1, 0x67) == 0x229306eb
  {
    assert ROWB[6] == 0x220216b9;
  }

  lemma LoopingStep5()
    ensures Update(0x229306eb, 0x63) == 0xe3419814
  {
    assert ROW8[8] == 0xe3630b12;
  }

  lemma LoopingStep6()
    ensures Update(0xe3419814, 0x76) == 0xa35f41ec
  {
    assert ROW6[2] == 0xa3bc0074;
  }

  lemma LoopingStep7()
    ensures Update(0xa35f41ec, 0x6D) == 0x9a1cecf7
  {
    assert ROW8[1] == 0x9abfb3b6;
  }

  lemma LoopingStep8()
    ensures Update(0x9a1cecf7, 0x67) == 0xf0958fa8
  {
    assert ROW9[0] == 0xf00f9344;
  }

  lemma LoopingStep9()
    ensures Update(0xf0958fa8, 0x71) == 0xffffffff
  {
    assert ROWD[9] == 0xff0f6a70;
  }

  /** The hash of this path, continued from id 1, is id 0. */
  lemma LoopingHash()
    ensures Hashed(1, LOOPING) == 0
  {
    hide Update, SerialByte, Serial;
    LoopingFirstHalf();
    LoopingSecondHalf();
    OneAsBits();
  }

  lemma LoopingFirstHalf()
    ensures Serial(0xfffffffe, LOOPING) == Serial(0x229306eb, LOOPING[5..])
  {
    hide Update, SerialByte, Serial;
    assert LOOPING[0..] == LOOPING;
    LoopingStep0();
    OneByte(0xfffffffe, LOOPING, 0);
    LoopingStep1();
    OneByte(0xf12b1dbd, LOOPING, 1);
    LoopingStep2();
    OneByte(0x8f94b5e2, LOOPING, 2);
    LoopingStep3();
    OneByte(0x743e462f, LOOPING, 3);
    LoopingStep4();
    OneByte(0x911052d1, LOOPING, 4);
  }

  lemma LoopingSecondHalf()
    ensures Serial(0x229306eb, LOOPING[5..]) == 0xffffffff
  {
    hide Update, SerialByte, Serial;
    LoopingStep5();
    OneByte(0x229306eb, LOOPING, 5);
    LoopingStep6();
    OneByte(0xe3419814, LOOPING, 6);
    LoopingStep7();
    OneByte(0xa35f41ec, LOOPING, 7);
    LoopingStep8();
    OneByte(0x9a1cecf7, LOOPING, 8);
    LoopingStep9();
    OneByte(0xf0958fa8, LOOPING, 9);
    assert LOOPING[10..] == [];
    SerialNothing(0xffffffff);
  }

  lemma OneAsBits()
    ensures Xor((1 as Id) as bv32, ONES) == 0xfffffffe && Xor(0xffffffff, ONES) as int == 0
  {
  }

  /** With only the root object 0 registered, the search for an id for this path does not end. */
  lemma {:induction false} NeverEnds(taken: set<Id>, n: nat)
    requires 0 in taken
    ensures !Settled(Rounds(taken, LOOPING, 1, n))
    decreases n
  {
    hide Hashed;
    LoopingHash();
    if n > 0 {
      NeverEnds(taken, n - 1);
    }
  }

  // ---- the linear search ----

  /** The loop without a path: the first id from i on that is not taken. */
  function FirstFree(taken: set<Id>, i: Id): (o: Outcome)
    ensures o.Free? ==> i <= o.id < UINT_MAX && o.id !in taken && forall j: Id | i <= j < o.id :: j in taken
    ensures o.Exhausted? ==> forall j: Id | i <= j < UINT_MAX :: j in taken
    ensures !o.Searching?
    decreases UINT_MAX - i
  {
    if i == UINT_MAX then Exhausted
    else if i !in taken then Free(i)
    else FirstFree(taken, i + 1)
  }

  lemma {:induction false} ManyTaken(taken: set<Id>, i: Id)
    requires FirstFree(taken, i).Exhausted?
    ensures |taken| >= UINT_MAX - i
    decreases UINT_MAX - i
  {
    if i < UINT_MAX {
      assert i in taken;
      var rest := taken - {i};
      WithoutLower(taken, i, i + 1);
      ManyTaken(rest, i + 1);
    }
  }

  lemma {:induction false} WithoutLower(taken: set<Id>, i: Id, k: Id)
    requires i < k
    ensures FirstFree(taken - {i}, k) == FirstFree(taken, k)
    decreases UINT_MAX - k
  {
    if k < UINT_MAX {
      WithoutLower(taken, i, k + 1);
    }
  }

  /** While fewer objects are registered than ids can be tried, a container gets an id. */
  lemma FreeIdLeft(taken: set<Id>, xbox: bool)
    requires |taken| < UINT_MAX - Start(xbox)
    ensures FirstFree(taken, Start(xbox)).Free?
  {
    if FirstFree(taken, Start(xbox)).Exhausted? {
      ManyTaken(taken, Start(xbox));
    }
  }
}
