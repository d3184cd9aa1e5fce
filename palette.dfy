/**
 * The colour scheme of reclass.js: COLORS, a fixed palette of 14 hex
 * colours, and COLOR_INDEX, a cursor that jobSelectParse resets to 0 when
 * `COLOR_INDEX + 1 > COLORS.length` and then reads and advances with
 * `COLORS[COLOR_INDEX++]`.
 */
module Palette {

  /** COLORS, in order. */
  const Colors: seq<string> := [
    "FF8C61", "CE6A85", "985277", "33261D", "759AAB", "197BBD", "AD6A6C",
    "89937C", "69995D", "1E2019", "CA9CE1", "EF2D56", "8CD867", "3E8989"
  ]

  /** The palette holds 14 distinct colours. */
  lemma PaletteDistinct()
    ensures |Colors| == 14
    ensures forall i, j :: 0 <= i < j < |Colors| ==> Colors[i] != Colors[j]
  {
  }

  /** The wrap check before the read: the slot that is read is always a palette index. */
  function WrapCursor(cursor: nat): (slot: nat)
    ensures slot < |Colors|
    ensures cursor < |Colors| ==> slot == cursor
  {
    if cursor + 1 > |Colors| then 0 else cursor
  }

  /** COLOR_INDEX after `n` calls of jobSelectParse, starting from 0. */
  function CursorAfter(n: nat): nat
  {
    if n == 0 then 0 else WrapCursor(CursorAfter(n - 1)) + 1
  }

  /** After n >= 1 calls the cursor is ((n - 1) mod 14) + 1, so it stays within 0..14. */
  lemma {:induction false} CursorAfterClosedForm(n: nat)
    ensures CursorAfter(n) == if n == 0 then 0 else (n - 1) % |Colors| + 1
  {
    if n > 1 {
      CursorAfterClosedForm(n - 1);
      var q, r := (n - 2) / |Colors|, (n - 2) % |Colors|;
      assert n - 2 == q * |Colors| + r;
      if r + 1 == |Colors| {
        ModOfMultiple(n - 1, q + 1, 0);
      } else {
        ModOfMultiple(n - 1, q, r + 1);
      }
    }
  }

  /** A number written as q * 14 + r with 0 <= r < 14 leaves remainder r. */
  lemma ModOfMultiple(m: int, q: int, r: int)
    requires m == q * |Colors| + r && 0 <= r < |Colors|
    ensures m % |Colors| == r
  {
  }

  /** The n-th call (counting from 0) reads COLORS[n mod 14]. */
  lemma ColorOfCall(n: nat)
    ensures WrapCursor(CursorAfter(n)) == n % |Colors|
  {
    CursorAfterClosedForm(n);
    if n > 0 {
      var q, r := (n - 1) / |Colors|, (n - 1) % |Colors|;
      assert n - 1 == q * |Colors| + r;
      if r + 1 == |Colors| {
        ModOfMultiple(n, q + 1, 0);
      } else {
        ModOfMultiple(n, q, r + 1);
      }
    }
  }
}
