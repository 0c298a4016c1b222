/** Offsets of rows in a plane. The programs multiply; the specifications count row by row. */
module Planes {

  /** The length of n rows. */
  function Rows(n: nat, pitch: nat): nat {
    if n == 0 then 0 else Rows(n - 1, pitch) + pitch
  }

  lemma {:induction false} RowsIsProduct(n: nat, pitch: nat)
    ensures Rows(n, pitch) == n * pitch
  {
    if n != 0 {
      RowsIsProduct(n - 1, pitch);
    }
  }

  lemma {:induction false} RowsApart(r: nat, h: nat, pitch: nat)
    requires r < h
    ensures Rows(r, pitch) + pitch <= Rows(h, pitch)
  {
    if r < h - 1 {
      RowsApart(r, h - 1, pitch);
    }
  }

  lemma {:induction false} RowsScale(n: nat, pitch: nat, f: nat)
    ensures Rows(n, f * pitch) == f * Rows(n, pitch)
  {
    if n != 0 {
      RowsScale(n - 1, pitch, f);
      assert f * (Rows(n - 1, pitch) + pitch) == f * Rows(n - 1, pitch) + f * pitch;
    }
  }

  lemma {:induction false} RowsAppend(k: nat, n: nat, pitch: nat)
    ensures Rows(k + n, pitch) == Rows(k, pitch) + Rows(n, pitch)
  {
    if n != 0 {
      RowsAppend(k, n - 1, pitch);
    }
  }
}
