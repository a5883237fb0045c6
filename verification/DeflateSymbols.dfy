/** Symbols and extra bits of lengths and distances, section 3.2.5 of RFC 1951. The compressor's tables
    (`s_tdefl_len_sym` and its neighbours) are written as the ranges they consist of; the decompressor's
    base and extra tables are `s_length_base` and its neighbours. */
module DeflateSymbols {
  import opened Bits

  const LENGTH_BASE: seq<nat> :=
    [3, 4, 5, 6, 7, 8, 9, 10, 11, 13, 15, 17, 19, 23, 27, 31, 35, 43, 51, 59, 67, 83, 99, 115, 131, 163, 195, 227, 258]

  const LENGTH_EXTRA: seq<nat> :=
    [0, 0, 0, 0, 0, 0, 0, 0, 1, 1, 1, 1, 2, 2, 2, 2, 3, 3, 3, 3, 4, 4, 4, 4, 5, 5, 5, 5, 0]

  const DIST_BASE: seq<nat> :=
    [1, 2, 3, 4, 5, 7, 9, 13, 17, 25, 33, 49, 65, 97, 129, 193, 257, 385, 513, 769, 1025, 1537, 2049, 3073,
     4097, 6145, 8193, 12289, 16385, 24577]

  const DIST_EXTRA: seq<nat> :=
    [0, 0, 0, 0, 1, 1, 2, 2, 3, 3, 4, 4, 5, 5, 6, 6, 7, 7, 8, 8, 9, 9, 10, 10, 11, 11, 12, 12, 13, 13]

  /** `s_tdefl_len_extra` for a length less three. */
  function LenExtra(l: nat): (e: nat)
    requires l < 256
    ensures e <= 5
  {
    if l < 8 || l == 255 then 0
    else if l < 16 then 1
    else if l < 32 then 2
    else if l < 64 then 3
    else if l < 128 then 4
    else 5
  }

  /** `s_tdefl_len_sym` */
  function LenSym(l: nat): (s: nat)
    requires l < 256
    ensures 257 <= s <= 285
  {
    if l < 8 then 257 + l
    else if l == 255 then 285
    else if l < 16 then 261 + l / 2
    else if l < 32 then 265 + l / 4
    else if l < 64 then 269 + l / 8
    else if l < 128 then 273 + l / 16
    else 277 + l / 32
  }

  /** `s_tdefl_small_dist_extra` and `s_tdefl_large_dist_extra` for a distance less one. */
  function DistExtra(d: nat): (e: nat)
    requires d < 32768
    ensures e <= 13
  {
    if d < 4 then 0
    else if d < 8 then 1
    else if d < 16 then 2
    else if d < 32 then 3
    else if d < 64 then 4
    else if d < 128 then 5
    else if d < 256 then 6
    else if d < 512 then 7
    else if d < 1024 then 8
    else if d < 2048 then 9
    else if d < 4096 then 10
    else if d < 8192 then 11
    else if d < 16384 then 12
    else 13
  }

  /** `s_tdefl_small_dist_sym` and `s_tdefl_large_dist_sym` */
  function DistSym(d: nat): (s: nat)
    requires d < 32768
    ensures s < 30
  {
    if d < 4 then d
    else if d < 8 then 2 + d / 2
    else if d < 16 then 4 + d / 4
    else if d < 32 then 6 + d / 8
    else if d < 64 then 8 + d / 16
    else if d < 128 then 10 + d / 32
    else if d < 256 then 12 + d / 64
    else if d < 512 then 14 + d / 128
    else if d < 1024 then 16 + d / 256
    else if d < 2048 then 18 + d / 512
    else if d < 4096 then 20 + d / 1024
    else if d < 8192 then 22 + d / 2048
    else if d < 16384 then 24 + d / 4096
    else 26 + d / 8192
  }

  lemma Powers()
    ensures Pow2(0) == 1 && Pow2(1) == 2 && Pow2(2) == 4 && Pow2(3) == 8 && Pow2(4) == 16 && Pow2(5) == 32
    ensures Pow2(6) == 64 && Pow2(7) == 128 && Pow2(8) == 256 && Pow2(9) == 512 && Pow2(10) == 1024
    ensures Pow2(11) == 2048 && Pow2(12) == 4096 && Pow2(13) == 8192
  {
    assert Pow2(4) == 16 && Pow2(8) == 16 * Pow2(4) && Pow2(12) == 16 * Pow2(8);
  }

  ghost predicate LengthReturns(l: nat) {
    l < 256 && LENGTH_EXTRA[LenSym(l) - 257] == LenExtra(l)
    && LENGTH_BASE[LenSym(l) - 257] + l % Pow2(LenExtra(l)) == l + 3
  }

  lemma LengthTo32(l: nat)
    requires l < 32
    ensures LengthReturns(l)
  {
    Powers();
    hide Pow2;
  }

  lemma LengthTo256(l: nat)
    requires 32 <= l < 256
    ensures LengthReturns(l)
  {
    Powers();
    hide Pow2;
  }

  /** Base plus extra bits is the length again. */
  lemma LengthBack(l: nat)
    requires l < 256
    ensures var i := LenSym(l) - 257;
            LENGTH_EXTRA[i] == LenExtra(l) && LENGTH_BASE[i] + l % Pow2(LenExtra(l)) == l + 3
  {
    if l < 32 {
      LengthTo32(l);
    } else {
      LengthTo256(l);
    }
  }

  ghost predicate DistanceReturns(d: nat) {
    d < 32768 && DIST_EXTRA[DistSym(d)] == DistExtra(d) && DIST_BASE[DistSym(d)] + d % Pow2(DistExtra(d)) == d + 1
  }

  lemma DistanceTo16(d: nat)
    requires d < 16
    ensures DistanceReturns(d)
  {
    Powers();
    hide Pow2;
  }

  lemma DistanceTo64(d: nat)
    requires 16 <= d < 64
    ensures DistanceReturns(d)
  {
    Powers();
    hide Pow2;
  }

  lemma DistanceTo512(d: nat)
    requires 64 <= d < 512
    ensures DistanceReturns(d)
  {
    Powers();
    hide Pow2;
  }

  lemma DistanceTo4096(d: nat)
    requires 512 <= d < 4096
    ensures DistanceReturns(d)
  {
    Powers();
    hide Pow2;
  }

  lemma DistanceTo32768(d: nat)
    requires 4096 <= d < 32768
    ensures DistanceReturns(d)
  {
    Powers();
    hide Pow2;
  }

  /** Base plus extra bits is the distance again. */
  lemma DistanceBack(d: nat)
    requires d < 32768
    ensures DIST_EXTRA[DistSym(d)] == DistExtra(d) && DIST_BASE[DistSym(d)] + d % Pow2(DistExtra(d)) == d + 1
  {
    if d < 16 {
      DistanceTo16(d);
    } else if d < 64 {
      DistanceTo64(d);
    } else if d < 512 {
      DistanceTo512(d);
    } else if d < 4096 {
      DistanceTo4096(d);
    } else {
      DistanceTo32768(d);
    }
  }
}
