/** What the link tag says about a frame opened under another key than the one it was sealed with. */
module LinkMismatch {
  import opened Bytes
  import opened LinkCipher

  /** The 32 key differences, repeated along a message of n bytes. */
  function Cycled(gap: seq<byte>, n: nat): (r: seq<byte>)
    requires |gap| == KEY_SIZE
    ensures |r| == n
  {
    seq(n, i requires 0 <= i < n => gap[i % KEY_SIZE])
  }

  /** In lane j the differences cancel. */
  predicate Cancels(gap: seq<byte>, n: nat, j: nat)
    requires |gap| == KEY_SIZE
  {
    Lane(Cycled(gap, n), j) == 0
  }

  lemma Reopened(p: byte, a: byte, b: byte)
    ensures p ^ ((p ^ a) ^ b) == a ^ b
  {
  }

  lemma EqualMeansZero(x: byte, y: byte)
    ensures x == y <==> x ^ y == 0
  {
  }

  /** A frame sealed under a and opened under b is accepted iff the key differences cancel in every lane. */
  lemma {:induction false} AcceptedUnderOtherKey(a: seq<byte>, b: seq<byte>, plain: seq<byte>)
    requires |a| == |b| == KEY_SIZE
    ensures Open(b, Seal(a, plain)).Some? <==> forall j :: 0 <= j < TAG_SIZE ==> Cancels(Xor(a, b), |plain|, j)
  {
    var frame := Seal(a, plain);
    assert Body(frame) == XorStream(a, plain) && Trailer(frame) == Tag(plain);
    var got := XorStream(b, Body(frame));
    var diff := Cycled(Xor(a, b), |plain|);
    assert Xor(plain, got) == diff by {
      forall i | 0 <= i < |plain| ensures Xor(plain, got)[i] == diff[i] {
        Reopened(plain[i], a[i % KEY_SIZE], b[i % KEY_SIZE]);
      }
    }
    forall j | 0 <= j < TAG_SIZE ensures Tag(plain)[j] == Tag(got)[j] <==> Lane(diff, j) == 0 {
      LaneIsLinear(plain, got, j);
      EqualMeansZero(Lane(plain, j), Lane(got, j));
    }
    assert Open(b, frame).Some? <==> Tag(got) == Tag(plain);
    if Tag(got) == Tag(plain) {
      forall j | 0 <= j < TAG_SIZE ensures Cancels(Xor(a, b), |plain|, j) {
        assert Tag(plain)[j] == Tag(got)[j];
      }
    } else {
      var j :| 0 <= j < TAG_SIZE && Tag(plain)[j] != Tag(got)[j];
      assert !Cancels(Xor(a, b), |plain|, j);
    }
  }

  // ---------------------------------------------------------------- the lanes of a repeated difference

  /** How many of the first n indices are j modulo 16. */
  function Visits(n: nat, j: nat): nat {
    n / TAG_SIZE + (if n % TAG_SIZE > j then 1 else 0)
  }

  datatype Phase = Zero | One | Two | Three

  /** The number of visits modulo 4. */
  function PhaseOf(visits: nat): Phase {
    if visits == 0 then Zero else Succ(PhaseOf(visits - 1))
  }

  function Succ(p: Phase): Phase {
    match p case Zero => One case One => Two case Two => Three case Three => Zero
  }

  predicate Even(p: Phase) {
    p == Zero || p == Two
  }

  lemma NextVisit(n: nat, j: nat)
    requires j < TAG_SIZE
    ensures Visits(n + 1, j) == Visits(n, j) + (if n % TAG_SIZE == j then 1 else 0)
  {
    var t, r := n / TAG_SIZE, n % TAG_SIZE;
    assert n + 1 == TAG_SIZE * t + (r + 1);
  }

  lemma {:induction false} Quarters(q: nat)
    ensures PhaseOf(4 * q) == Zero && PhaseOf(4 * q + 1) == One
    ensures PhaseOf(4 * q + 2) == Two && PhaseOf(4 * q + 3) == Three
  {
    if q > 0 {
      Quarters(q - 1);
      assert PhaseOf(4 * (q - 1) + 3) == Three;
      assert PhaseOf(4 * q) == Zero;
    }
    assert PhaseOf(4 * q + 1) == One;
    assert PhaseOf(4 * q + 2) == Two;
  }

  lemma {:induction false} PhaseParity(visits: nat)
    ensures Even(PhaseOf(visits)) <==> visits % 2 == 0
  {
    if visits > 0 {
      PhaseParity(visits - 1);
    }
  }

  lemma SplitByParity(n: nat, v: nat, j: nat)
    requires j < TAG_SIZE && n == TAG_SIZE * v + j
    ensures n % KEY_SIZE == if v % 2 == 0 then j else j + TAG_SIZE
  {
    var h := v / 2;
    assert n == KEY_SIZE * h + (TAG_SIZE * (v % 2) + j);
  }

  /** The visits to a lane alternate between the two halves of the key. */
  lemma VisitedHalf(n: nat, j: nat)
    requires j < TAG_SIZE && n % TAG_SIZE == j
    ensures n % KEY_SIZE == if Even(PhaseOf(Visits(n, j))) then j else j + TAG_SIZE
  {
    SplitByParity(n, Visits(n, j), j);
    PhaseParity(Visits(n, j));
  }

  // ---------------------------------------------------------------- what a lane accumulates

  function Half(p: Phase, low: byte, high: byte): byte {
    if Even(p) then low else high
  }

  function Accumulated(visits: nat, low: byte, high: byte): byte {
    if visits == 0 then 0 else Accumulated(visits - 1, low, high) ^ Half(PhaseOf(visits - 1), low, high)
  }

  /** One more byte of the message, as seen by lane j. */
  lemma CycledStep(gap: seq<byte>, m: nat, j: nat)
    requires |gap| == KEY_SIZE && j < TAG_SIZE
    ensures Lane(Cycled(gap, m + 1), j)
         == Lane(Cycled(gap, m), j) ^ (if m % TAG_SIZE == j then gap[m % KEY_SIZE] else 0)
  {
    assert Cycled(gap, m + 1)[..m] == Cycled(gap, m);
  }

  lemma XorZero(x: byte)
    ensures x ^ 0 == x
  {
  }

  lemma SkippedStep(gap: seq<byte>, m: nat, j: nat)
    requires |gap| == KEY_SIZE && j < TAG_SIZE && m % TAG_SIZE != j
    ensures Lane(Cycled(gap, m + 1), j) == Lane(Cycled(gap, m), j) && Visits(m + 1, j) == Visits(m, j)
  {
    NextVisit(m, j);
    CycledStep(gap, m, j);
    XorZero(Lane(Cycled(gap, m), j));
  }

  lemma VisitingStep(gap: seq<byte>, m: nat, j: nat)
    requires |gap| == KEY_SIZE && j < TAG_SIZE && m % TAG_SIZE == j
    ensures Visits(m + 1, j) == Visits(m, j) + 1
    ensures Lane(Cycled(gap, m + 1), j)
         == Lane(Cycled(gap, m), j) ^ Half(PhaseOf(Visits(m, j)), gap[j], gap[j + TAG_SIZE])
  {
    NextVisit(m, j);
    VisitedHalf(m, j);
    CycledStep(gap, m, j);
  }

  lemma {:induction false} LaneOfCycled(gap: seq<byte>, n: nat, j: nat)
    requires |gap| == KEY_SIZE && j < TAG_SIZE
    ensures Lane(Cycled(gap, n), j) == Accumulated(Visits(n, j), gap[j], gap[j + TAG_SIZE])
    decreases n
  {
    if n > 0 {
      LaneOfCycled(gap, n - 1, j);
      if (n - 1) % TAG_SIZE == j {
        VisitingStep(gap, n - 1, j);
      } else {
        SkippedStep(gap, n - 1, j);
      }
    }
  }

  /** Four visits cancel. */
  function Folded(p: Phase, low: byte, high: byte): byte {
    match p case Zero => 0 case One => low case Two => low ^ high case Three => high
  }

  lemma ZeroXor(x: byte)
    ensures 0 ^ x == x
  {
  }

  lemma XorBack(x: byte, y: byte)
    ensures (x ^ y) ^ x == y
  {
  }

  lemma FoldOnce(p: Phase, low: byte, high: byte)
    ensures Folded(Succ(p), low, high) == Folded(p, low, high) ^ Half(p, low, high)
  {
    match p
    case Zero => ZeroXor(low);
    case One =>
    case Two => XorBack(low, high);
    case Three => NoChange(high);
  }

  lemma {:induction false} AccumulatedFolds(visits: nat, low: byte, high: byte)
    ensures Accumulated(visits, low, high) == Folded(PhaseOf(visits), low, high)
  {
    if visits > 0 {
      AccumulatedFolds(visits - 1, low, high);
      FoldOnce(PhaseOf(visits - 1), low, high);
    }
  }

  /** The halves of the difference agree byte by byte. */
  predicate HalvesAgree(gap: seq<byte>)
    requires |gap| == KEY_SIZE
  {
    forall j :: 0 <= j < TAG_SIZE ==> gap[j] == gap[j + TAG_SIZE]
  }

  lemma FoldedIsZero(p: Phase, low: byte, high: byte)
    requires low != 0 && high != 0
    ensures Folded(p, low, high) == 0 <==> p == Zero || (p == Two && low == high)
  {
    EqualMeansZero(low, high);
  }

  lemma CancelsExactly(gap: seq<byte>, n: nat, j: nat)
    requires |gap| == KEY_SIZE && j < TAG_SIZE && gap[j] != 0 && gap[j + TAG_SIZE] != 0
    ensures Cancels(gap, n, j) <==>
            var p := PhaseOf(Visits(n, j)); p == Zero || (p == Two && gap[j] == gap[j + TAG_SIZE])
  {
    LaneOfCycled(gap, n, j);
    AccumulatedFolds(Visits(n, j), gap[j], gap[j + TAG_SIZE]);
    FoldedIsZero(PhaseOf(Visits(n, j)), gap[j], gap[j + TAG_SIZE]);
  }

  lemma AlignedVisits(n: nat, j: nat)
    requires j < TAG_SIZE && n % TAG_SIZE == 0
    ensures n % 64 == 0 || n % 64 == 16 || n % 64 == 32 || n % 64 == 48
    ensures Visits(n, j) == 4 * (n / 64) + n % 64 / TAG_SIZE
  {
  }

  lemma AlignedPhase(n: nat, j: nat)
    requires j < TAG_SIZE && n % TAG_SIZE == 0
    ensures PhaseOf(Visits(n, j)) == Zero <==> n % 64 == 0
    ensures PhaseOf(Visits(n, j)) == Two <==> n % 64 == 32
  {
    AlignedVisits(n, j);
    Quarters(n / 64);
  }

  /** In a ragged message the first lane is visited once more than the last. */
  lemma RaggedPhases(n: nat)
    requires n % TAG_SIZE != 0
    ensures !Even(PhaseOf(Visits(n, 0))) || !Even(PhaseOf(Visits(n, TAG_SIZE - 1)))
  {
    assert Visits(n, 0) == Visits(n, TAG_SIZE - 1) + 1;
  }

  lemma RaggedLength(n: nat)
    requires n % TAG_SIZE != 0
    ensures n % 64 != 0 && n % 64 != 32
  {
    assert n == 64 * (n / 64) + n % 64;
  }

  lemma AlignedCancels(gap: seq<byte>, n: nat, j: nat)
    requires |gap| == KEY_SIZE && j < TAG_SIZE && gap[j] != 0 && gap[j + TAG_SIZE] != 0 && n % TAG_SIZE == 0
    ensures Cancels(gap, n, j) <==> n % 64 == 0 || (n % 64 == 32 && gap[j] == gap[j + TAG_SIZE])
  {
    AlignedPhase(n, j);
    CancelsExactly(gap, n, j);
  }

  /** When the keys differ everywhere, the length decides: a multiple of 64, or of 32 if the halves agree. */
  lemma {:induction false} LanesCancelExactly(gap: seq<byte>, n: nat)
    requires |gap| == KEY_SIZE && forall i :: 0 <= i < KEY_SIZE ==> gap[i] != 0
    ensures (forall j :: 0 <= j < TAG_SIZE ==> Cancels(gap, n, j))
       <==> n % 64 == 0 || (n % 64 == 32 && HalvesAgree(gap))
  {
    var first := 0;
    if n % TAG_SIZE != 0 {
      RaggedPhases(n);
      RaggedLength(n);
      CancelsExactly(gap, n, first);
      CancelsExactly(gap, n, TAG_SIZE - 1);
    } else {
      forall j | 0 <= j < TAG_SIZE
        ensures Cancels(gap, n, j) <==> n % 64 == 0 || (n % 64 == 32 && gap[j] == gap[j + TAG_SIZE])
      {
        AlignedCancels(gap, n, j);
      }
      if n % 64 != 0 && n % 64 != 32 {
        assert !Cancels(gap, n, first);
      } else if n % 64 == 32 && !HalvesAgree(gap) {
        var j :| 0 <= j < TAG_SIZE && gap[j] != gap[j + TAG_SIZE];
        assert !Cancels(gap, n, j);
      } else {
        forall j | 0 <= j < TAG_SIZE ensures Cancels(gap, n, j) {
          assert n % 64 == 0 || gap[j] == gap[j + TAG_SIZE];
          AlignedCancels(gap, n, j);
        }
      }
    }
  }

  /**
   Out of phase the server takes the k-th message for authentic exactly when its length is a multiple
   of 64, or an odd multiple of 32 and the key and its shifted copy differ alike in both halves; what it then reads is
   wrong in every byte.
   */
  lemma {:induction false} AcceptedOutOfPhaseExactly(key: seq<byte>, k: nat, plain: seq<byte>)
    requires |key| == KEY_SIZE && !InPhase(k)
    ensures Open(key, KthFrame(key, k, plain)).Some? <==>
            |plain| % 64 == 0 || (|plain| % 64 == 32 && HalvesAgree(Xor(ShiftedKey(key, k), key)))
    ensures var r := Open(key, KthFrame(key, k, plain));
            r.Some? ==> |r.value| == |plain| && forall i :: 0 <= i < |plain| ==> r.value[i] != plain[i]
  {
    AfterSealsClosedForm(key, k);
    var sent := ShiftedKey(key, k);
    var gap := Xor(sent, key);
    forall i | 0 <= i < KEY_SIZE ensures gap[i] != 0 {
      AddingByteOf(key[i], k / ROTATION);
      EqualMeansZero(sent[i], key[i]);
    }
    AcceptedUnderOtherKey(sent, key, plain);
    LanesCancelExactly(gap, |plain|);
    if plain != [] {
      ServerRecoversExactlyInPhase(key, k, plain);
    }
  }
}
