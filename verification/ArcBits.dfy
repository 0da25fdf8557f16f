/** Encoding a set of sectors as sixteen 32-bit words (crates/dht/src/arc_set.rs). */
module ArcBits {
  import opened Wrappers
  import opened TimeLayout
  import opened Sectors

  const WORDS: nat := 16
  const WORD_BITS: nat := 32

  /** Bitwise and on numbers, one binary digit at a time. */
  function BitAnd(a: nat, b: nat): nat
    decreases a
  {
    if a == 0 || b == 0 then 0
    else 2 * BitAnd(a / 2, b / 2) + (if a % 2 == 1 && b % 2 == 1 then 1 else 0)
  }

  predicate TestBit(v: nat, b: nat)
    decreases b
  {
    if b == 0 then v % 2 == 1 else TestBit(v / 2, b - 1)
  }

  lemma {:induction false} BitAndTests(v: nat, b: nat)
    ensures BitAnd(v, Pow2(b)) != 0 <==> TestBit(v, b)
    decreases b
  {
    if b > 0 {
      assert Pow2(b) / 2 == Pow2(b - 1) && Pow2(b) % 2 == 0;
      BitAndTests(v / 2, b - 1);
      if v == 0 {
        TestZero(b);
      }
    } else {
      assert BitAnd(v / 2, 0) == 0;
    }
  }

  lemma {:induction false} TestZero(b: nat)
    ensures !TestBit(0, b)
  {
    if b > 0 {
      TestZero(b - 1);
    }
  }

  lemma {:induction false} BitOrZero(v: nat)
    ensures BitOr(v, 0) == v
  {
    if v > 0 {
      BitOrZero(v / 2);
    }
  }

  /** Or-ing in a power of two sets that bit and no other. */
  lemma {:induction false} BitOrSets(v: nat, b: nat, c: nat)
    ensures TestBit(BitOr(v, Pow2(b)), c) <==> TestBit(v, c) || c == b
    decreases b
  {
    var r := BitOr(v, Pow2(b));
    if b == 0 {
      BitOrZero(v / 2);
      assert r / 2 == v / 2 && r % 2 == 1;
    } else {
      assert Pow2(b) / 2 == Pow2(b - 1) && Pow2(b) % 2 == 0;
      assert r / 2 == BitOr(v / 2, Pow2(b - 1)) && r % 2 == v % 2;
      if c > 0 {
        BitOrSets(v / 2, b - 1, c - 1);
      }
    }
  }

  lemma BitOrEven(v: nat, p: nat)
    requires p > 0
    ensures BitOr(v, 2 * p) == 2 * BitOr(v / 2, p) + v % 2
  {
    assert 2 * p / 2 == p;
  }

  lemma {:induction false} BitOrBound(v: nat, b: nat, n: nat)
    requires v < Pow2(n) && b < n
    ensures BitOr(v, Pow2(b)) < Pow2(n)
    decreases b
  {
    var half := v / 2;
    assert v == 2 * half + v % 2 && half < Pow2(n - 1);
    if b == 0 {
      BitOrZero(half);
      assert BitOr(v, 1) == 2 * half + 1;
    } else {
      BitOrBound(half, b - 1, n - 1);
      BitOrEven(v, Pow2(b - 1));
    }
  }

  /** A word is determined by its bits. */
  lemma {:induction false} SameBitsSameWord(v: nat, w: nat, n: nat)
    requires v < Pow2(n) && w < Pow2(n)
    requires forall b: nat :: b < n ==> (TestBit(v, b) <==> TestBit(w, b))
    ensures v == w
    decreases n
  {
    if n > 0 {
      forall b: nat | b < n - 1
        ensures TestBit(v / 2, b) <==> TestBit(w / 2, b)
      {
        assert TestBit(v, b + 1) <==> TestBit(w, b + 1);
      }
      SameBitsSameWord(v / 2, w / 2, n - 1);
      assert TestBit(v, 0) <==> TestBit(w, 0);
    }
  }

  /** The words hold one bit for each sector, set exactly for the members of the set. */
  ghost predicate Encodes(words: seq<nat>, sectors: set<nat>) {
    && |words| == WORDS
    && (forall k :: 0 <= k < WORDS ==> words[k] < Pow2(WORD_BITS))
    && (forall j :: j in sectors ==> j < SECTORS)
    && (forall k, b: nat :: 0 <= k < WORDS && b < WORD_BITS ==> (TestBit(words[k], b) <==> Position(k, b) in sectors))
  }

  function Position(k: nat, b: nat): nat {
    k * 32 + b
  }

  lemma PositionIs(k: nat, b: nat, j: nat)
    requires b < WORD_BITS
    ensures Position(k, b) == j <==> k == j / 32 && b == j % 32
  {
  }

  /** Encoding, in whatever order the set is walked. */
  method Encode(sectors: set<nat>) returns (words: seq<nat>)
    requires forall j :: j in sectors ==> j < SECTORS
    ensures Encodes(words, sectors)
  {
    words := seq(WORDS, _ => 0);
    assert Pow2(WORD_BITS) > 0;
    forall k, b: nat | 0 <= k < WORDS && b < WORD_BITS
      ensures !TestBit(words[k], b)
    {
      TestZero(b);
    }
    var rest := sectors;
    ghost var done: set<nat> := {};
    while rest != {}
      invariant rest + done == sectors
      invariant Encodes(words, done)
      decreases |rest|
    {
      var j :| j in rest;
      ghost var before := words;
      var index, bit := j / 32, j % 32;
      BitOrBound(words[index], bit, WORD_BITS);
      words := words[index := BitOr(words[index], Pow2(bit))];
      forall k, b: nat | 0 <= k < WORDS && b < WORD_BITS
        ensures TestBit(words[k], b) <==> Position(k, b) in done + {j}
      {
        PositionIs(k, b, j);
        BitOrSets(before[index], bit, b);
      }
      rest, done := rest - {j}, done + {j};
    }
    assert done == sectors;
  }

  /** Decoding, which fails exactly on a wrong number of words. */
  method Decode(words: seq<nat>) returns (r: Result<set<nat>>)
    requires forall k :: 0 <= k < |words| ==> words[k] < Pow2(WORD_BITS)
    ensures r.Err? <==> |words| != WORDS
    ensures r.Ok? ==> Encodes(words, r.value)
  {
    if |words| != WORDS {
      return Err;
    }
    var sectors: set<nat> := {};
    for k := 0 to |words|
      invariant forall j: nat :: j in sectors <==> Decoded(words, j, k, 0)
    {
      sectors := DecodeWord(words, k, sectors);
    }
    forall k, b: nat | 0 <= k < WORDS && b < WORD_BITS
      ensures TestBit(words[k], b) <==> Position(k, b) in sectors
    {
      PositionIs(k, b, Position(k, b));
    }
    return Ok(sectors);
  }

  /** A set bit among those of the words before `k`, or the first `b` of word `k`. */
  predicate Decoded(words: seq<nat>, j: nat, k: nat, b: nat)
    requires k <= |words| && (b > 0 ==> k < |words|)
  {
    (j / 32 < k || (j / 32 == k && j % 32 < b)) && TestBit(words[j / 32], j % 32)
  }

  method DecodeWord(words: seq<nat>, k: nat, sectors: set<nat>) returns (sectors': set<nat>)
    requires k < |words| && forall j: nat :: j in sectors <==> Decoded(words, j, k, 0)
    ensures forall j: nat :: j in sectors' <==> Decoded(words, j, k + 1, 0)
  {
    sectors' := sectors;
    for b := 0 to WORD_BITS
      invariant forall j: nat :: j in sectors' <==> Decoded(words, j, k, b)
    {
      BitAndTests(words[k], b);
      PositionIs(k, b, Position(k, b));
      forall j: nat
        ensures Decoded(words, j, k, b + 1) <==>
                Decoded(words, j, k, b) || (j == Position(k, b) && TestBit(words[k], b))
      {
        PositionIs(k, b, j);
      }
      if BitAnd(words[k], Pow2(b)) != 0 {
        sectors' := sectors' + {Position(k, b)};
      }
    }
  }

  /** The encoding is one to one in both directions, so encoding and decoding undo each other. */
  lemma EncodingIsOneToOne(words: seq<nat>, sectors: set<nat>, words': seq<nat>, sectors': set<nat>)
    requires Encodes(words, sectors) && Encodes(words', sectors')
    ensures words == words' <==> sectors == sectors'
  {
    if words == words' {
      forall j: nat
        ensures j in sectors <==> j in sectors'
      {
        if j < SECTORS {
          PositionIs(j / 32, j % 32, j);
          assert TestBit(words[j / 32], j % 32) <==> Position(j / 32, j % 32) in sectors;
        }
      }
    }
    if sectors == sectors' {
      forall k | 0 <= k < WORDS
        ensures words[k] == words'[k]
      {
        forall b: nat | b < WORD_BITS
          ensures TestBit(words[k], b) <==> TestBit(words'[k], b)
        {
          assert TestBit(words[k], b) <==> Position(k, b) in sectors;
        }
        SameBitsSameWord(words[k], words'[k], WORD_BITS);
      }
    }
  }

  /** Decoding an encoded set gives the set back. */
  method EncodeThenDecode(sectors: set<nat>) returns (sectors': set<nat>)
    requires forall j :: j in sectors ==> j < SECTORS
    ensures sectors' == sectors
  {
    var words := Encode(sectors);
    var decoded := Decode(words);
    EncodingIsOneToOne(words, sectors, words, decoded.value);
    return decoded.value;
  }

  /** Encoding decoded words gives the words back. */
  method DecodeThenEncode(words: seq<nat>) returns (words': seq<nat>)
    requires |words| == WORDS && forall k :: 0 <= k < WORDS ==> words[k] < Pow2(WORD_BITS)
    ensures words' == words
  {
    var decoded := Decode(words);
    words' := Encode(decoded.value);
    EncodingIsOneToOne(words, decoded.value, words', decoded.value);
  }
}
