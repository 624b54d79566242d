// Value types shared by every part of the model.

module Base {

  type byte = x: int | 0 <= x < 0x100
  type u32 = x: int | 0 <= x < 0x1_0000_0000
  type i32 = x: int | -0x8000_0000 <= x < 0x8000_0000

  /** A Go `[6]byte` MAC address, a Curve25519 `[32]byte` public key and a 16-byte UUID. */
  type Mac = m: seq<byte> | |m| == 6 witness Zeros(6)
  type Key = k: seq<byte> | |k| == 32 witness Zeros(32)
  type UuidBytes = u: seq<byte> | |u| == 16 witness Zeros(16)

  datatype Option<+T> = None | Some(value: T)

  datatype Result<+T, +E> = Ok(value: T) | Err(error: E)

  function Zeros(n: nat): (z: seq<byte>)
  {
    seq(n, _ => 0)
  }

  lemma ConcatAssociative<T>(a: seq<T>, b: seq<T>, c: seq<T>)
    ensures (a + b) + c == a + (b + c)
  {
  }

  lemma MapOverwrite<K, V>(m: map<K, V>, k: K, a: V, b: V)
    ensures m[k := a][k := b] == m[k := b]
  {
  }

  // ---- time.Time and time.Duration, both in nanoseconds ----

  type Time = int

  /** The zero time.Time (1 January, year 1), relative to the Unix epoch. */
  const ZERO_TIME: Time := -62_135_596_800_000_000_000

  const MAX_DURATION: int := 0x7FFF_FFFF_FFFF_FFFF
  const NANOS_PER_SECOND := 1_000_000_000

  /** A configured timeout: a nonnegative time.Duration below the saturation point. */
  type Timeout = d: int | 0 <= d < MAX_DURATION

  /** time.Since(t) read at instant `now`; time.Time.Sub saturates. */
  function Since(now: Time, t: Time): int
  {
    var d := now - t;
    if d > MAX_DURATION then MAX_DURATION
    else if d < -MAX_DURATION - 1 then -MAX_DURATION - 1
    else d
  }

  predicate Expired(now: Time, lastSeen: Time, timeout: Timeout)
  {
    Since(now, lastSeen) > timeout
  }

  /** Saturation never matters against a timeout. */
  lemma ExpiredMeans(now: Time, lastSeen: Time, timeout: Timeout)
    ensures Expired(now, lastSeen, timeout) <==> now - lastSeen > timeout
  {
  }

  // ---- Ranging over a Go map ----

  /** An order in which a range loop may visit a map: every key once. */
  ghost predicate IsOrder<K(!new)>(order: seq<K>, keys: set<K>)
  {
    && (forall i, j :: 0 <= i < j < |order| ==> order[i] != order[j])
    && (forall k :: k in order <==> k in keys)
  }

  method RangeOrder<K(==,!new)>(keys: set<K>) returns (order: seq<K>)
    ensures IsOrder(order, keys)
  {
    order := [];
    var left := keys;
    while left != {}
      invariant left <= keys
      invariant IsOrder(order, keys - left)
      decreases left
    {
      var k :| k in left;
      order := order + [k];
      left := left - {k};
    }
  }

  lemma {:induction false} OrderLength<K(!new)>(order: seq<K>, keys: set<K>)
    requires IsOrder(order, keys)
    ensures |order| == |keys|
  {
    if order == [] {
      assert keys == {};
    } else {
      var n := |order| - 1;
      var last := order[n];
      assert forall k :: k in order <==> k in order[..n] || k == last;
      assert last !in order[..n];
      OrderLength(order[..n], keys - {last});
    }
  }
}
