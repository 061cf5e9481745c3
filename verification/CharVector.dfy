/** The growing byte buffer, as the byte sequence it holds. */
module CharVectors {
  import opened Common

  const MEGA := 1024 * 1024

  /** One growth step: doubling up to ten megabytes, one more megabyte beyond. */
  function Grow(cap: nat): nat {
    if cap > 10 * MEGA then cap + MEGA else cap * 2
  }

  /** The capacity where the growth loop stops that starts at `sz`. */
  function Grown(sz: nat, n: nat): nat
    requires sz > 0
    decreases n - sz
  {
    if sz < n then Grown(Grow(sz), n) else sz
  }

  /** The capacity after reserve(n). */
  function Reserved(cap: nat, n: nat): nat {
    Grown(if 64 < cap then cap else 64, n)
  }

  lemma {:induction false} GrownBounds(sz: nat, n: nat)
    requires sz > 0
    ensures sz <= Grown(sz, n) && n <= Grown(sz, n)
    ensures sz >= n ==> Grown(sz, n) == sz
    ensures sz < n ==> Grown(sz, n) < 2 * n
    ensures sz < n && Grown(sz, n) > 20 * MEGA ==> Grown(sz, n) < n + MEGA
    decreases n - sz
  {
    if sz < n { GrownBounds(Grow(sz), n); }
  }

  /** Reserving never shrinks, holds what was asked for, and overshoots by less than a factor of two,
      or by less than a megabyte where growth is additive. */
  lemma ReservedBounds(cap: nat, n: nat)
    ensures cap <= Reserved(cap, n) && n <= Reserved(cap, n) && 64 <= Reserved(cap, n)
    ensures n <= cap && 64 <= cap ==> Reserved(cap, n) == cap
    ensures n > cap ==> Reserved(cap, n) < 2 * (if n > 64 then n else 64)
    ensures n > cap && Reserved(cap, n) > 20 * MEGA ==> Reserved(cap, n) < n + MEGA
  {
    GrownBounds(if 64 < cap then cap else 64, n);
  }

  /** The capacities that a vector of 1024 bytes grows through up to 128 KiB. */
  predicate Doubled(cap: nat) {
    cap in {1024, 2048, 4096, 8192, 16384, 32768, 65536, 131072}
  }

  /** A vector that started with 1024 bytes and never held more than 128 KiB has at most that capacity. */
  lemma {:induction false} DoubledStays(cap: nat, n: nat)
    requires Doubled(cap) && n <= 131072
    ensures Doubled(Reserved(cap, n)) && Reserved(cap, n) <= 131072
    decreases n - cap
  {
    if cap < n {
      DoubledStays(Grow(cap), n);
    }
  }

  class CharVector {
    var base: array<Byte>
    var len: nat
    var cap: nat

    predicate Valid()
      reads this
    {
      base.Length == cap && len <= cap && 64 <= cap
    }

    function Contents(): (s: seq<Byte>)
      requires Valid()
      reads this, base
      ensures |s| == len
    {
      base[..len]
    }

    /** An empty vector with room for `n` bytes. */
    constructor (n: nat)
      ensures Valid() && fresh(base)
      ensures Contents() == [] && cap == Reserved(0, n)
    {
      ReservedBounds(0, n);
      var sz := GrowthLoop(0, n);
      base := new Byte[sz];
      cap := sz;
      len := 0;
    }

    constructor Default()
      ensures Valid() && fresh(base)
      ensures Contents() == [] && cap == 1024
    {
      var sz := GrowthLoop(0, 1024);
      assert Grown(512, 1024) == 1024 && Grown(256, 1024) == 1024 && Grown(128, 1024) == 1024;
      base := new Byte[sz];
      cap := sz;
      len := 0;
    }

    static method GrowthLoop(cap: nat, n: nat) returns (sz: nat)
      ensures sz == Reserved(cap, n)
    {
      sz := 64;
      if sz < cap { sz := cap; }
      while sz < n
        invariant sz > 0 && Grown(sz, n) == Reserved(cap, n)
        decreases n - sz
      {
        if sz > 10 * MEGA { sz := sz + MEGA; } else { sz := sz * 2; }
      }
    }

    method Reserve(n: nat)
      requires Valid()
      modifies this
      ensures Valid() && Contents() == old(Contents()) && cap == Reserved(old(cap), n)
      ensures if n <= old(cap) then base == old(base) else fresh(base)
    {
      ReservedBounds(cap, n);
      var sz := GrowthLoop(cap, n);
      AllocMem(sz);
    }

    method AllocMem(n: nat)
      requires Valid()
      modifies this
      ensures Valid() && Contents() == old(Contents()) && cap == if n > old(cap) then n else old(cap)
      ensures if n <= old(cap) then base == old(base) else fresh(base)
    {
      if n > cap {
        var moved := new Byte[n];
        forall k | 0 <= k < len { moved[k] := base[k]; }
        base, cap := moved, n;
      }
    }

    method PushBack(ch: Byte)
      requires Valid()
      modifies this, base
      ensures Valid() && Contents() == old(Contents()) + [ch]
      ensures cap == if old(len) < old(cap) then old(cap) else Grow(old(cap))
      ensures base == old(base) || fresh(base)
      ensures old(len) < old(cap) ==> base == old(base)
    {
      if len == cap {
        ReservedBounds(cap, Grow(cap));
        assert Grown(cap, Grow(cap)) == Grown(Grow(cap), Grow(cap));
        Reserve(Grow(cap));
      }
      base[len] := ch;
      len := len + 1;
    }

    method Clear()
      requires Valid()
      modifies this
      ensures Valid() && Contents() == [] && base == old(base) && cap == old(cap)
    {
      len := 0;
    }

    /** Appends `n` bytes of `buf` from `start` on. */
    method Append(buf: array<Byte>, start: nat, n: nat)
      requires Valid() && start + n <= buf.Length && buf != base
      modifies this, base
      ensures Valid() && Contents() == old(Contents()) + buf[start..start + n]
      ensures cap == Reserved(old(cap), old(len) + n)
      ensures var was := old(base); was[..old(len)] == old(Contents())
      ensures if old(len) + n <= old(cap) then base == old(base) else fresh(base)
    {
      ReservedBounds(cap, len + n);
      Reserve(len + n);
      forall k | 0 <= k < n { base[len + k] := buf[start + k]; }
      len := len + n;
    }

    /** Within the capacity the bytes beyond the old size are whatever the buffer held there. */
    method Resize(n: nat)
      requires Valid()
      modifies this
      ensures Valid() && len == n && cap == if n > old(cap) then Reserved(old(cap), n) else old(cap)
      ensures n <= old(cap) ==> base == old(base) && Contents() == old(base[..n])
      ensures n > old(cap) ==> fresh(base) && Contents()[..old(len)] == old(Contents())
    {
      if n > cap {
        ReservedBounds(cap, n);
        Reserve(n);
      }
      len := n;
    }

    method CopyTo(other: CharVector)
      requires Valid() && other.Valid() && (other != this ==> other.base != base)
      modifies other, other.base
      ensures other.Valid() && other.Contents() == old(Contents())
      ensures Valid() && Contents() == old(Contents())
      ensures other.cap == Reserved(old(other.cap), old(len))
      ensures if old(len) <= old(other.cap) then other.base == old(other.base) else fresh(other.base)
    {
      ReservedBounds(other.cap, len);
      other.Reserve(len);
      forall k | 0 <= k < len { other.base[k] := base[k]; }
      other.Resize(len);
    }
  }
}
