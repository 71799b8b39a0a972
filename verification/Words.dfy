/**
 A 32-bit register word as its bits, bit 0 first, and arrays of words as one long bit string.
 */
module Words {
  import opened Bits

  type Word = w: seq<bool> | |w| == 32 witness seq(32, _ => false)

  function Zero(): Word {
    seq(32, _ => false)
  }

  /** The low 32 bits of a number. */
  function WordOf(n: nat): Word {
    seq(32, b requires 0 <= b < 32 => n / Pow2(b) % 2 == 1)
  }

  predicate IsZero(w: Word) {
    forall b | 0 <= b < 32 :: !w[b]
  }

  function And(v: Word, w: Word): Word {
    seq(32, b requires 0 <= b < 32 => v[b] && w[b])
  }

  function AndNot(v: Word, w: Word): Word {
    seq(32, b requires 0 <= b < 32 => v[b] && !w[b])
  }

  function Or(v: Word, w: Word): Word {
    seq(32, b requires 0 <= b < 32 => v[b] || w[b])
  }

  /** Python's `w.bit_length()`: one more than the highest set bit among the lowest `n`. */
  function BitLen(w: Word, n: nat): (l: nat)
    requires n <= 32
    ensures l <= n
    ensures l == 0 <==> forall b | 0 <= b < n :: !w[b]
    ensures l > 0 ==> w[l - 1] && forall b | l <= b < n :: !w[b]
  {
    if n == 0 || w[n - 1] then n else BitLen(w, n - 1)
  }

  // ---- a register bank: bit `i` is bit `i % 32` of word `i / 32` ----

  predicate BankBit(ws: seq<Word>, i: nat)
    requires i < 32 * |ws|
  {
    ws[i / 32][i % 32]
  }

  function SetBank(ws: seq<Word>, i: nat, v: bool): (r: seq<Word>)
    requires i < 32 * |ws|
    ensures |r| == |ws| && forall j | 0 <= j < 32 * |ws| :: BankBit(r, j) == if j == i then v else BankBit(ws, j)
  {
    ws[i / 32 := ws[i / 32][i % 32 := v]]
  }

  ghost function BankSet(ws: seq<Word>): (s: set<nat>)
    ensures forall i: nat :: i in s <==> i < 32 * |ws| && BankBit(ws, i)
  {
    set i: nat | 0 <= i < 32 * |ws| && BankBit(ws, i)
  }

  ghost predicate BankEmpty(ws: seq<Word>) {
    forall k | 0 <= k < |ws| :: IsZero(ws[k])
  }

  lemma EmptyBank(ws: seq<Word>)
    ensures BankEmpty(ws) <==> BankSet(ws) == {}
  {
    if BankSet(ws) == {} {
      forall k, b | 0 <= k < |ws| && 0 <= b < 32
        ensures !ws[k][b]
      {
        assert BankBit(ws, 32 * k + b) == ws[k][b];
        assert 32 * k + b !in BankSet(ws);
      }
    }
  }
}
