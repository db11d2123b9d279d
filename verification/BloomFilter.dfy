/** The card's basename filter: a bit array whose meaning is a set of bit positions. */
module BloomFilter {
  import opened Bytes

  const NUM_BITS: nat := 9585
  const STORAGE_BYTES: nat := 1200
  const NUM_HASHES: nat := 7

  /** The bit position taken from bytes 2i and 2i+1 of a digest. */
  function Position(digest: Bytes, i: nat): (p: nat)
    requires |digest| == 32 && i < NUM_HASHES
    ensures p < NUM_BITS
  {
    (digest[2 * i] * 256 + digest[2 * i + 1]) % NUM_BITS
  }

  function PositionsUpTo(digest: Bytes, n: nat): (s: set<nat>)
    requires |digest| == 32 && n <= NUM_HASHES
    ensures forall p :: p in s ==> p < NUM_BITS
    ensures |s| <= n && (n > 0 ==> s != {})
    ensures forall i :: 0 <= i < n ==> Position(digest, i) in s
  {
    if n == 0 then {} else PositionsUpTo(digest, n - 1) + {Position(digest, n - 1)}
  }

  /** The positions of an element: at least one, at most seven, all below NUM_BITS. */
  function Positions(digest: Bytes): set<nat>
    requires |digest| == 32
  {
    PositionsUpTo(digest, NUM_HASHES)
  }

  // ----- What the positions are -----

  /** The i-th pair of bytes of a digest as a number, most significant byte first. */
  function Word(digest: Bytes, i: nat): nat
    requires |digest| == 32 && i < 16
  {
    FromBE(digest[2 * i..2 * i + 2])
  }

  lemma TwoBytes(s: Bytes)
    requires |s| == 2
    ensures var hi: int, lo: int := s[0], s[1]; FromBE(s) == hi * 256 + lo
  {
    assert s[..1][..0] == [];
    assert FromBE(s[..1]) == s[0];
  }

  lemma {:induction false} UpToIff(digest: Bytes, n: nat, p: nat)
    requires |digest| == 32 && n <= 7
    ensures p in PositionsUpTo(digest, n) <==> exists i :: 0 <= i < n && p == Word(digest, i) % 9585
  {
    if n > 0 {
      UpToIff(digest, n - 1, p);
      TwoBytes(digest[2 * (n - 1)..2 * (n - 1) + 2]);
      assert Position(digest, n - 1) == Word(digest, n - 1) % 9585;
    }
  }

  /** The positions of an element are its first seven words modulo 9585, and nothing else. */
  lemma PositionsIff(digest: Bytes, p: nat)
    requires |digest| == 32
    ensures p in Positions(digest) <==> exists i :: 0 <= i < 7 && p == Word(digest, i) % 9585
  {
    UpToIff(digest, 7, p);
  }

  // ----- Single bits of a byte -----

  function Mask(i: nat): bv8
    requires i < 8
  {
    if i == 0 then 1 else if i == 1 then 2 else if i == 2 then 4 else if i == 3 then 8
    else if i == 4 then 16 else if i == 5 then 32 else if i == 6 then 64 else 128
  }

  predicate IsSet(b: bv8, i: nat)
    requires i < 8
  {
    b & Mask(i) != 0
  }

  lemma SetOneBit(b: bv8, i: nat, j: nat)
    requires i < 8 && j < 8
    ensures IsSet(b | Mask(i), j) <==> j == i || IsSet(b, j)
  {
  }

  class BloomFilter {
    const bits: array<bv8>
    const sha256: Bytes -> Bytes
    var epochCounter: int

    ghost predicate Valid()
      reads this, bits
    {
      && bits.Length == STORAGE_BYTES
      && (forall d :: |sha256(d)| == 32)
    }

    predicate BitAt(p: nat)
      reads this, bits
      requires bits.Length == STORAGE_BYTES && p < 8 * STORAGE_BYTES
    {
      IsSet(bits[p / 8], p % 8)
    }

    /** The abstraction: the positions whose bit is set. */
    ghost function Contents(): (s: set<nat>)
      reads this, bits
      requires Valid()
      ensures forall p: nat :: p in s <==> p < 8 * STORAGE_BYTES && BitAt(p)
    {
      set p: nat | p < 8 * STORAGE_BYTES && BitAt(p)
    }

    constructor (sha256: Bytes -> Bytes)
      requires forall d :: |sha256(d)| == 32
      ensures Valid() && fresh(bits) && this.sha256 == sha256 && epochCounter == 0 && Contents() == {}
    {
      this.sha256 := sha256;
      bits := new bv8[STORAGE_BYTES](i => 0);
      epochCounter := 0;
    }

    method SetBit(p: nat)
      requires Valid() && p < 8 * STORAGE_BYTES
      modifies bits
      ensures Valid() && Contents() == old(Contents()) + {p}
    {
      forall j: nat | j < 8 { SetOneBit(bits[p / 8], p % 8, j); }
      bits[p / 8] := bits[p / 8] | Mask(p % 8);
      forall r: nat | r < 8 * STORAGE_BYTES
        ensures BitAt(r) <==> r == p || old(BitAt(r))
      {
        assert r == r / 8 * 8 + r % 8 && p == p / 8 * 8 + p % 8;
      }
    }

    method TestBit(p: nat) returns (isSet: bool)
      requires Valid() && p < 8 * STORAGE_BYTES
      ensures isSet <==> p in Contents()
    {
      isSet := BitAt(p);
    }

    /** Whether the first n positions of a digest are all set. */
    method AllSet(digest: Bytes, n: nat) returns (allSet: bool)
      requires Valid() && |digest| == 32 && n <= NUM_HASHES
      ensures allSet <==> PositionsUpTo(digest, n) <= Contents()
    {
      allSet := true;
      ghost var contents := Contents();
      for i := 0 to n
        invariant allSet <==> PositionsUpTo(digest, i) <= contents
      {
        var pos := Position(digest, i);
        var isSet := TestBit(pos);
        OneMoreIn(PositionsUpTo(digest, i), pos, contents);
        if !isSet {
          allSet := false;
        }
      }
    }

    method SetAll(digest: Bytes, n: nat)
      requires Valid() && |digest| == 32 && n <= NUM_HASHES
      modifies bits
      ensures Valid() && Contents() == old(Contents()) + PositionsUpTo(digest, n)
    {
      ghost var before := Contents();
      for i := 0 to n
        invariant Contents() == before + PositionsUpTo(digest, i)
      {
        SetBit(Position(digest, i));
        OneMore(before, PositionsUpTo(digest, i), Position(digest, i));
      }
    }

    lemma OneMoreIn(a: set<nat>, p: nat, c: set<nat>)
      ensures a + {p} <= c <==> a <= c && p in c
    {
    }

    lemma OneMore(a: set<nat>, b: set<nat>, p: nat)
      ensures (a + b) + {p} == a + (b + {p})
    {
    }

    /** True, changing nothing, exactly when every position of the element is already set;
        otherwise all of them are set. */
    method CheckAndAdd(basename: Bytes) returns (used: bool)
      requires Valid()
      modifies bits
      ensures Valid()
      ensures var ps := Positions(sha256(basename));
              && (used <==> ps <= old(Contents()))
              && Contents() == old(Contents()) + ps
    {
      var digest := sha256(basename);
      used := AllSet(digest, NUM_HASHES);
      if used {
        assert Contents() == Contents() + Positions(digest);
        return;
      }
      SetAll(digest, NUM_HASHES);
    }

    method ResetForEpoch(newEpoch: int) returns (ok: bool)
      requires Valid()
      modifies this, bits
      ensures Valid()
      ensures ok <==> newEpoch > old(epochCounter)
      ensures epochCounter == (if ok then newEpoch else old(epochCounter))
      ensures Contents() == if ok then {} else old(Contents())
    {
      if newEpoch <= epochCounter {
        return false;
      }
      epochCounter := newEpoch;
      for i := 0 to STORAGE_BYTES
        invariant epochCounter == newEpoch
        invariant forall j :: 0 <= j < i ==> bits[j] == 0
      {
        bits[i] := 0;
      }
      forall p: nat | p < 8 * STORAGE_BYTES ensures !BitAt(p) {
        assert bits[p / 8] == 0;
      }
      assert Contents() == {};
      return true;
    }
  }
}
