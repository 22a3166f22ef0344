/** Modbus registers as numbers: words, bytes, big-endian composition and single bits. */
module Words {

  /** One 16-bit holding register. */
  type Word = w: nat | w < 0x1_0000

  /** One byte of a register payload. */
  type Byte = b: nat | b < 0x100

  /** 2^k. */
  function Pow2(k: nat): (r: nat)
    ensures r >= 1
  {
    if k == 0 then 1 else 2 * Pow2(k - 1)
  }

  /** 65536^n: one more than the largest value that n words can hold. */
  function WordPow(n: nat): (r: nat)
    ensures r >= 1
  {
    if n == 0 then 1 else 0x1_0000 * WordPow(n - 1)
  }

  /** The unsigned value of `ws` read most significant word first, i.e. the
      sum of ws[i] * 65536^(|ws| - 1 - i), written in Horner form. */
  function ValueOf(ws: seq<Word>): (v: nat)
    ensures v < WordPow(|ws|)
    ensures |ws| > 0 ==> v % 0x1_0000 == ws[|ws| - 1]
  {
    if |ws| == 0 then 0
    else ValueOf(ws[..|ws| - 1]) * 0x1_0000 + ws[|ws| - 1]
  }

  /** The n words that hold `v`, most significant word first. */
  function WordsOf(v: nat, n: nat): (ws: seq<Word>)
    requires v < WordPow(n)
    ensures |ws| == n
    ensures ValueOf(ws) == v
  {
    if n == 0 then []
    else
      var ws := WordsOf(v / 0x1_0000, n - 1) + [v % 0x1_0000];
      assert ws[..n - 1] == WordsOf(v / 0x1_0000, n - 1);
      ws
  }

  /** Two words read as one 32-bit value: high word times 65536 plus low word. */
  lemma ValueOfTwo(hi: Word, lo: Word)
    ensures ValueOf([hi, lo]) == hi * 0x1_0000 + lo
  {
    assert [hi, lo][..1] == [hi];
    assert [hi][..0] == [];
  }

  /** Big-endian composition splits at any point: the leading words are scaled
      by the capacity of the trailing ones. */
  lemma {:induction false} ValueOfAppend(hi: seq<Word>, lo: seq<Word>)
    ensures ValueOf(hi + lo) == ValueOf(hi) * WordPow(|lo|) + ValueOf(lo)
    decreases |lo|
  {
    if |lo| == 0 {
      assert hi + lo == hi;
    } else {
      var lo' := lo[..|lo| - 1];
      assert (hi + lo)[..|hi + lo| - 1] == hi + lo';
      ValueOfAppend(hi, lo');
      var a := ValueOf(hi);
      var w := WordPow(|lo'|);
      calc {
        ValueOf(hi + lo);
        ValueOf(hi + lo') * 0x1_0000 + lo[|lo| - 1];
        (a * w + ValueOf(lo')) * 0x1_0000 + lo[|lo| - 1];
        { MulAssoc(a, w, 0x1_0000); }
        a * (w * 0x1_0000) + ValueOf(lo') * 0x1_0000 + lo[|lo| - 1];
        a * WordPow(|lo|) + ValueOf(lo);
      }
    }
  }

  lemma MulAssoc(a: nat, b: nat, c: nat)
    ensures (a * b) * c == a * (b * c)
  {}

  /** Composition is injective for a fixed word count: splitting the value
      of `ws` back into |ws| words gives `ws` again. */
  lemma {:induction false} WordsOfValueOf(ws: seq<Word>)
    ensures WordsOf(ValueOf(ws), |ws|) == ws
    decreases |ws|
  {
    if |ws| > 0 {
      var init := ws[..|ws| - 1];
      var v := ValueOf(ws);
      assert v / 0x1_0000 == ValueOf(init) && v % 0x1_0000 == ws[|ws| - 1];
      WordsOfValueOf(init);
      assert ws == init + [ws[|ws| - 1]];
    }
  }

  /** The two bytes of a word, high byte first. */
  function ByteSplit(w: Word): (bs: seq<Byte>)
    ensures |bs| == 2 && (bs[0] as nat) * 0x100 + bs[1] == w
  {
    [w / 0x100, w % 0x100]
  }

  /** The byte payload of a register sequence: every word high byte first. */
  function BytesOf(ws: seq<Word>): (bs: seq<Byte>)
    ensures |bs| == 2 * |ws|
    ensures |ws| > 0 ==> bs[0] == ws[0] / 0x100 && bs[1] == ws[0] % 0x100
  {
    if |ws| == 0 then [] else ByteSplit(ws[0]) + BytesOf(ws[1..])
  }

  /** The registers that carry an even-length byte payload, two bytes per word. */
  function WordsOfBytes(bs: seq<Byte>): (ws: seq<Word>)
    requires |bs| % 2 == 0
    ensures |ws| == |bs| / 2
    ensures BytesOf(ws) == bs
  {
    if |bs| == 0 then []
    else
      var w: Word := (bs[0] as nat) * 0x100 + bs[1];
      var rest := WordsOfBytes(bs[2..]);
      assert BytesOf([w] + rest) == bs by {
        BytesOfCons(w, rest);
        assert ByteSplit(w) == bs[..2];
        assert bs == bs[..2] + bs[2..];
      }
      [w] + rest
  }

  /** The first word is the most significant: the value divided by the
      weight of the remaining words is the first word. */
  lemma ValueOfHighWord(ws: seq<Word>)
    requires |ws| > 0
    ensures ValueOf(ws) / WordPow(|ws| - 1) == ws[0]
  {
    ValueOfAppend([ws[0]], ws[1..]);
    assert [ws[0]] + ws[1..] == ws;
    assert ValueOf([ws[0]]) == ws[0] by {
      assert [ws[0]][..0] == [];
    }
    DivModUnique(ws[0], ValueOf(ws[1..]), WordPow(|ws| - 1));
  }

  /** Byte i of the payload is the high byte of register i / 2 for even i
      and its low byte for odd i. */
  lemma {:induction false} BytesOfAt(ws: seq<Word>)
    ensures forall i :: 0 <= i < |BytesOf(ws)| ==>
              BytesOf(ws)[i] == if i % 2 == 0 then ws[i / 2] / 0x100 else ws[i / 2] % 0x100
    decreases |ws|
  {
    if |ws| > 0 {
      BytesOfAt(ws[1..]);
      var bs := BytesOf(ws);
      forall i | 0 <= i < |bs|
        ensures bs[i] == if i % 2 == 0 then ws[i / 2] / 0x100 else ws[i / 2] % 0x100
      {
        if i >= 2 {
          assert bs[i] == BytesOf(ws[1..])[i - 2];
          assert ws[1..][(i - 2) / 2] == ws[i / 2];
        }
      }
    }
  }

  lemma BytesOfCons(w: Word, rest: seq<Word>)
    ensures BytesOf([w] + rest) == ByteSplit(w) + BytesOf(rest)
  {
    assert ([w] + rest)[1..] == rest;
  }

  /** Bit k of x, that is `(x >> k) & 1 != 0` for a nonnegative x. */
  function Bit(x: nat, k: nat): bool
  {
    if k == 0 then x % 2 == 1 else Bit(x / 2, k - 1)
  }

  /** A number below 2^n has no bit at position n or above. */
  lemma {:induction false} BitAboveWidth(x: nat, n: nat, k: nat)
    requires x < Pow2(n) && n <= k
    ensures !Bit(x, k)
    decreases k
  {
    if k > 0 {
      if n == 0 {
        assert x == 0;
        BitAboveWidth(x / 2, 0, k - 1);
      } else {
        BitAboveWidth(x / 2, n - 1, k - 1);
      }
    }
  }

  /** A number below 2^n is nonzero exactly when one of its n low bits is set. */
  lemma {:induction false} NonzeroHasLowBit(x: nat, n: nat)
    requires x < Pow2(n)
    ensures x != 0 ==> exists k :: 0 <= k < n && Bit(x, k)
    ensures (exists k :: 0 <= k < n && Bit(x, k)) ==> x != 0
    decreases n
  {
    if n == 0 {
      assert x == 0;
    } else if x % 2 == 1 {
      var k: nat := 0;
      assert 0 <= k < n && Bit(x, k);
    } else {
      NonzeroHasLowBit(x / 2, n - 1);
      if x != 0 {
        var k :| 0 <= k < n - 1 && Bit(x / 2, k);
        assert Bit(x, k + 1);
      } else {
        forall k | 0 <= k < n
          ensures !Bit(x, k)
        {
          BitOfZero(k);
        }
      }
    }
  }

  lemma {:induction false} BitOfZero(k: nat)
    ensures !Bit(0, k)
  {
    if k > 0 {
      BitOfZero(k - 1);
    }
  }

  /** Reducing modulo 2^n keeps the n low bits: `(x & (2^n - 1))` has
      the same bit k as x for every k below n. */
  lemma {:induction false} BitOfMod(x: nat, n: nat, k: nat)
    requires k < n
    ensures Bit(x % Pow2(n), k) == Bit(x, k)
    decreases k
  {
    var p := Pow2(n - 1);
    assert Pow2(n) == 2 * p;
    assert x % (2 * p) == 2 * ((x / 2) % p) + x % 2 by { ModTwice(x, p); }
    if k > 0 {
      BitOfMod(x / 2, n - 1, k - 1);
      assert (x % (2 * p)) / 2 == (x / 2) % p;
    }
  }

  lemma MulLe(a: nat, b: nat, c: nat)
    requires a <= b
    ensures a * c <= b * c
  {}

  lemma DivMod(v: nat, p: nat)
    requires p >= 1
    ensures (v / p) * p + v % p == v
  {}

  lemma DivModUnique(q: nat, r: nat, p: nat)
    requires r < p
    ensures (q * p + r) / p == q && (q * p + r) % p == r
  {
    var x := q * p + r;
    DivMod(x, p);
    var d := x / p - q;
    assert d * p == r - x % p;
    if d > 0 {
      MulLe(1, d, p);
    }
  }

  lemma ModTwice(x: nat, p: nat)
    requires p >= 1
    ensures x % (2 * p) == 2 * ((x / 2) % p) + x % 2
  {
    var q := (x / 2) / p;
    var r := (x / 2) % p;
    assert x / 2 == q * p + r;
    assert x == 2 * (q * p + r) + x % 2;
    assert x == q * (2 * p) + (2 * r + x % 2);
    DivModUnique(q, 2 * r + x % 2, 2 * p);
  }
}
