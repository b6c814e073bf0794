/** The rolling sync-word accumulator of `skipToNextSync`: each byte read is
    shifted into the low end of a 32-bit word, and the scan stops at the
    first byte after which the decoder's sync predicate holds of the word. */
module SyncScan {
  import opened MhasTypes

  /** The 32 bits of the Java `int` accumulator, read as an unsigned value. */
  type Int32Bits = x: int | 0 <= x < 0x1_0000_0000

  /** The value of three bytes read as a big-endian 24-bit word. */
  function Word24(b0: byte, b1: byte, b2: byte): (w: nat)
    ensures w < 0x100_0000
  {
    (b0 as int * 256 + b1 as int) * 256 + b2 as int
  }

  /** `syncBytes <<= 8; syncBytes |= b`, with the shift wrapping at 32 bits. */
  function ShiftIn(acc: Int32Bits, b: byte): Int32Bits
  {
    (acc * 256 + b as int) % 0x1_0000_0000
  }

  lemma {:induction false} MulAtLeast(k: int, m: int)
    requires k >= 1 && m > 0
    ensures k * m >= m
  {
    if k > 1 {
      MulAtLeast(k - 1, m);
      assert k * m == (k - 1) * m + m;
    }
  }

  /** Euclidean remainder is unique: `q * m + r` leaves `r` when `0 <= r < m`. */
  lemma DivMod(x: int, q: int, m: int, r: int)
    requires m > 0 && 0 <= r < m && x == q * m + r
    ensures x % m == r
  {
    var q', r' := x / m, x % m;
    assert x == q' * m + r';
    assert (q - q') * m == r' - r;
    if q > q' {
      MulAtLeast(q - q', m);
    } else if q < q' {
      MulAtLeast(q' - q, m);
    }
  }

  /** Shifting a byte in drops the top byte of the accumulator: the result
      is its low three bytes moved up by one byte, with the new byte below. */
  lemma ShiftInValue(acc: Int32Bits, b: byte)
    ensures ShiftIn(acc, b) == (acc % 0x100_0000) * 256 + b as int
  {
    var q, m := acc / 0x100_0000, acc % 0x100_0000;
    assert acc * 256 + b as int == q * 0x1_0000_0000 + (m * 256 + b as int);
    DivMod(acc * 256 + b as int, q, 0x1_0000_0000, m * 256 + b as int);
  }

  /** Shifting a byte in pushes the low bytes of the accumulator up by one
      byte and puts the new byte at the bottom. */
  lemma ShiftInLowBytes(acc: Int32Bits, b: byte)
    ensures ShiftIn(acc, b) % 256 == b as int
    ensures ShiftIn(acc, b) % 0x1_0000 == (acc % 256) * 256 + b as int
    ensures ShiftIn(acc, b) % 0x100_0000 == (acc % 0x1_0000) * 256 + b as int
  {
    ShiftInValue(acc, b);
    var q, m := acc / 0x100_0000, acc % 0x100_0000;
    var y := m * 256 + b as int;
    DivMod(y, m, 256, b as int);
    var q1, m1 := m / 256, m % 256;
    assert acc == (q * 0x1_0000 + q1) * 256 + m1;
    DivMod(acc, q * 0x1_0000 + q1, 256, m1);
    DivMod(y, q1, 0x1_0000, m1 * 256 + b as int);
    var q2, m2 := m / 0x1_0000, m % 0x1_0000;
    assert acc == (q * 256 + q2) * 0x1_0000 + m2;
    DivMod(acc, q * 256 + q2, 0x1_0000, m2);
    DivMod(y, q2, 0x100_0000, m2 * 256 + b as int);
  }

  /** The accumulator after shifting in every byte of `bytes`, in order. */
  function Accumulate(acc: Int32Bits, bytes: seq<byte>): Int32Bits
    decreases |bytes|
  {
    if bytes == [] then acc
    else ShiftIn(Accumulate(acc, bytes[..|bytes| - 1]), bytes[|bytes| - 1])
  }

  /** The sync predicate holds once byte `j` of `bytes` has been shifted in. */
  ghost predicate SyncAt(isSync: int -> bool, acc: Int32Bits, bytes: seq<byte>, j: nat)
    requires j < |bytes|
  {
    isSync(Accumulate(acc, bytes[..j + 1]))
  }

  /** The index of the byte that completes the first sync word, if any. */
  function FirstSync(isSync: int -> bool, acc: Int32Bits, bytes: seq<byte>): Option<nat>
    decreases |bytes|
  {
    if bytes == [] then None
    else match FirstSync(isSync, acc, bytes[..|bytes| - 1])
      case Some(k) => Some(k)
      case None => if isSync(Accumulate(acc, bytes)) then Some(|bytes| - 1) else None
  }

  function Offset(r: Option<nat>, d: nat): Option<nat>
  {
    match r
    case None => None
    case Some(k) => Some(k + d)
  }

  /** Whether a sync word ends at byte `j` does not depend on the bytes after it. */
  lemma SyncAtPrefix(isSync: int -> bool, acc: Int32Bits, bytes: seq<byte>, m: nat, j: nat)
    requires j < m <= |bytes|
    ensures SyncAt(isSync, acc, bytes, j) == SyncAt(isSync, acc, bytes[..m], j)
  {
    assert bytes[..j + 1] == bytes[..m][..j + 1];
  }

  /** FirstSync finds exactly the first index after which the predicate
      holds; when it finds none, the predicate holds after no byte. */
  lemma {:induction false} FirstSyncIsFirst(isSync: int -> bool, acc: Int32Bits, bytes: seq<byte>)
    ensures match FirstSync(isSync, acc, bytes)
      case None => forall j :: 0 <= j < |bytes| ==> !SyncAt(isSync, acc, bytes, j)
      case Some(k) =>
        && k < |bytes| && SyncAt(isSync, acc, bytes, k)
        && forall j :: 0 <= j < k ==> !SyncAt(isSync, acc, bytes, j)
    decreases |bytes|
  {
    if bytes != [] {
      var n := |bytes| - 1;
      var front := bytes[..n];
      FirstSyncIsFirst(isSync, acc, front);
      forall j | 0 <= j < n
        ensures SyncAt(isSync, acc, bytes, j) == SyncAt(isSync, acc, front, j)
      {
        SyncAtPrefix(isSync, acc, bytes, n, j);
      }
      assert bytes[..n + 1] == bytes;
      assert SyncAt(isSync, acc, bytes, n) == isSync(Accumulate(acc, bytes));
    }
  }

  /** Shifting in two runs of bytes one after the other is shifting in their concatenation. */
  lemma {:induction false} AccumulateAppend(acc: Int32Bits, a: seq<byte>, b: seq<byte>)
    ensures Accumulate(acc, a + b) == Accumulate(Accumulate(acc, a), b)
    decreases |b|
  {
    if b == [] {
      assert a + b == a;
    } else {
      var n := |b| - 1;
      AccumulateAppend(acc, a, b[..n]);
      assert (a + b)[..|a + b| - 1] == a + b[..n];
    }
  }

  /** Scanning two consecutive runs of bytes, the accumulator carried from
      the first into the second, finds what one scan of their concatenation
      finds: the first run's match if it has one, and otherwise the second
      run's, counted from the start of the first. */
  lemma {:induction false} FirstSyncAppend(isSync: int -> bool, acc: Int32Bits, a: seq<byte>, b: seq<byte>)
    ensures FirstSync(isSync, acc, a + b) ==
      match FirstSync(isSync, acc, a)
      case Some(k) => Some(k)
      case None => Offset(FirstSync(isSync, Accumulate(acc, a), b), |a|)
    decreases |b|
  {
    if b == [] {
      assert a + b == a;
    } else {
      var n := |b| - 1;
      FirstSyncAppend(isSync, acc, a, b[..n]);
      assert (a + b)[..|a + b| - 1] == a + b[..n];
      AccumulateAppend(acc, a, b);
    }
  }

  /** A sync word found in a prefix is the sync word found in the whole. */
  lemma FirstSyncOfPrefix(isSync: int -> bool, acc: Int32Bits, bytes: seq<byte>, m: nat)
    requires m <= |bytes|
    requires FirstSync(isSync, acc, bytes[..m]).Some?
    ensures FirstSync(isSync, acc, bytes) == FirstSync(isSync, acc, bytes[..m])
  {
    FirstSyncAppend(isSync, acc, bytes[..m], bytes[m..]);
    assert bytes[..m] + bytes[m..] == bytes;
  }

  /** The low three bytes of the accumulator are the last three bytes shifted
      in, so after a match the sync word sits in the three bytes that end at
      the matching byte: rewinding by MHAS_SYNC_WORD_LENGTH lands on it. */
  lemma AccumulateKeepsLastThree(acc: Int32Bits, bytes: seq<byte>)
    requires |bytes| >= MHAS_SYNC_WORD_LENGTH
    ensures var n := |bytes|;
      Accumulate(acc, bytes) % 0x100_0000 == Word24(bytes[n - 3], bytes[n - 2], bytes[n - 1])
  {
    var n := |bytes|;
    var r0 := Accumulate(acc, bytes[..n - 3]);
    var r1 := Accumulate(acc, bytes[..n - 2]);
    var r2 := Accumulate(acc, bytes[..n - 1]);
    assert bytes[..n - 2][..n - 3] == bytes[..n - 3];
    assert bytes[..n - 1][..n - 2] == bytes[..n - 2];
    assert r1 == ShiftIn(r0, bytes[n - 3]);
    assert r2 == ShiftIn(r1, bytes[n - 2]);
    assert Accumulate(acc, bytes) == ShiftIn(r2, bytes[n - 1]);
    ShiftInLowBytes(r0, bytes[n - 3]);
    ShiftInLowBytes(r1, bytes[n - 2]);
    ShiftInLowBytes(r2, bytes[n - 1]);
  }

  /** The decoder's sync test looks only at the low 24 bits of the word. */
  ghost predicate LowBitsSync(isSync: int -> bool)
  {
    forall x: Int32Bits, y: Int32Bits :: x % 0x100_0000 == y % 0x100_0000 ==> isSync(x) == isSync(y)
  }

  /** With such a test, a match completed by byte `k` of the slice, with two
      bytes of the slice before it, is a sync word made of bytes `k - 2`
      to `k`: rewinding by MHAS_SYNC_WORD_LENGTH from after byte `k` lands on
      its first byte. */
  lemma SyncWordEndsAt(isSync: int -> bool, acc: Int32Bits, bytes: seq<byte>, k: nat)
    requires LowBitsSync(isSync)
    requires 2 <= k < |bytes| && SyncAt(isSync, acc, bytes, k)
    ensures isSync(Word24(bytes[k - 2], bytes[k - 1], bytes[k]))
  {
    var prefix := bytes[..k + 1];
    var v: Int32Bits := Word24(bytes[k - 2], bytes[k - 1], bytes[k]);
    var w: Int32Bits := Accumulate(acc, prefix);
    AccumulateKeepsLastThree(acc, prefix);
    assert w % 0x100_0000 == v;
    DivMod(v, 0, 0x100_0000, v);
    assert isSync(w) == isSync(v);
  }

  /** A sync word split across two slices: when the scan of the next slice,
      with the accumulator carried over from the earlier one, first matches
      at its byte `k` for `k < 2`, the word's first `2 - k` bytes are the
      last bytes of the earlier slice. The rewind by MHAS_SYNC_WORD_LENGTH
      from after byte `k` therefore lands before the later slice's first
      byte, where those bytes are not. */
  lemma SyncSplitAcrossSlices(isSync: int -> bool, acc: Int32Bits, a: seq<byte>, b: seq<byte>, k: nat)
    requires LowBitsSync(isSync) && |a| >= 2
    requires FirstSync(isSync, Accumulate(acc, a), b) == Some(k) && k < 2 && k < |b|
    ensures k == 0 ==> isSync(Word24(a[|a| - 2], a[|a| - 1], b[0]))
    ensures k == 1 ==> isSync(Word24(a[|a| - 1], b[0], b[1]))
  {
    FirstSyncIsFirst(isSync, Accumulate(acc, a), b);
    assert SyncAt(isSync, Accumulate(acc, a), b, k);
    var ab := a + b;
    assert ab[..|a| + k + 1] == a + b[..k + 1];
    AccumulateAppend(acc, a, b[..k + 1]);
    assert SyncAt(isSync, acc, ab, |a| + k);
    SyncWordEndsAt(isSync, acc, ab, |a| + k);
  }
}
