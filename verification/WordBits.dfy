/** 64-bit words as their 64 bits: the vocabulary shared by the packet bitmap, the
    chunk bitmap and the bitmap carried in a control message. Only `|`, `&`, `==`
    and `1ULL << i` are ever applied to these words, so a word is the sequence of
    its bits. A bitmap is a sequence of words; bit n of it is bit n % 64 of word
    n / 64. */
module WordBits {

  const WORD_BITS: nat := 64

  type Word = w: seq<bool> | |w| == 64 witness seq(64, _ => false)

  const ZERO_WORD: Word := seq(WORD_BITS, _ => false)
  const FULL_WORD: Word := seq(WORD_BITS, _ => true)

  /** The mask `1ULL << i`. */
  function OneHot(i: nat): Word
    requires i < WORD_BITS
  {
    seq(WORD_BITS, j => j == i)
  }

  function Or(a: Word, b: Word): Word {
    seq(WORD_BITS, j requires 0 <= j < WORD_BITS => a[j] || b[j])
  }

  function And(a: Word, b: Word): Word {
    seq(WORD_BITS, j requires 0 <= j < WORD_BITS => a[j] && b[j])
  }

  predicate Has(words: seq<Word>, n: nat) {
    n / WORD_BITS < |words| && words[n / WORD_BITS][n % WORD_BITS]
  }

  /** The effect of `fetch_or` with the mask of bit n. */
  function Put(words: seq<Word>, n: nat): (r: seq<Word>)
    requires n / WORD_BITS < |words|
    ensures |r| == |words|
    ensures forall k: nat :: Has(r, k) <==> k == n || Has(words, k)
  {
    var r := words[n / WORD_BITS := Or(words[n / WORD_BITS], OneHot(n % WORD_BITS))];
    r
  }

  /** Words needed for n bits. */
  function WordsFor(n: nat): nat {
    (n + 63) / 64
  }

  /** `(value & mask) == mask` holds exactly when every bit of the mask is set in the value. */
  lemma Covers(v: Word, m: Word)
    ensures And(v, m) == m <==> forall i :: 0 <= i < WORD_BITS && m[i] ==> v[i]
  {
    if And(v, m) == m {
      forall i | 0 <= i < WORD_BITS && m[i] ensures v[i] {
        assert And(v, m)[i];
      }
    }
  }

  /** `(value & (1ULL << i)) != 0` tests bit i. */
  lemma TestBit(v: Word, i: nat)
    requires i < WORD_BITS
    ensures And(v, OneHot(i)) != ZERO_WORD <==> v[i]
  {
    assert And(v, OneHot(i))[i] == v[i];
    if !v[i] {
      assert And(v, OneHot(i)) == ZERO_WORD;
    }
  }

  /** The mask built by or-ing `1ULL << bit` for lo <= bit < hi. */
  method RangeMask(lo: nat, hi: nat) returns (mask: Word)
    requires lo <= hi <= WORD_BITS
    ensures forall i :: 0 <= i < WORD_BITS ==> (mask[i] <==> lo <= i < hi)
  {
    mask := ZERO_WORD;
    var bit := lo;
    while bit < hi
      invariant lo <= bit <= hi
      invariant forall i :: 0 <= i < WORD_BITS ==> (mask[i] <==> lo <= i < bit)
    {
      mask := Or(mask, OneHot(bit));
      bit := bit + 1;
    }
  }
}
