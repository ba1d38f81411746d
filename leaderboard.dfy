/** The two cell formatters of the leaderboard page (`leaderboard/app.py`): the
    text sparkline of per-contributor contributions and the boolean-to-emoji
    rendering. */
module Leaderboard {
  import opened Wrappers
  import opened Arithmetic

  /** The eight block glyphs, from the lowest (U+2581) to the full block (U+2588). */
  const Blocks: seq<char> := ['\U{2581}', '\U{2582}', '\U{2583}', '\U{2584}',
                              '\U{2585}', '\U{2586}', '\U{2587}', '\U{2588}']

  const FullBlock: char := '\U{2588}'
  const LowestBlock: char := '\U{2581}'

  /** The glyphs are consecutive code points, so higher indices are taller glyphs. */
  lemma BlocksAscend(i: int, j: int)
    requires 0 <= i <= j < |Blocks|
    ensures Blocks[i] as int == 0x2581 + i
    ensures Blocks[i] <= Blocks[j]
  {
  }

  /** `max(contributions)`. */
  function MaxOf(s: seq<nat>): (m: nat)
    requires |s| > 0
    ensures m in s
    ensures forall i :: 0 <= i < |s| ==> s[i] <= m
    decreases |s|
  {
    if |s| == 1 then s[0]
    else
      var front := MaxOf(s[..|s| - 1]);
      if s[|s| - 1] > front then s[|s| - 1] else front
  }

  /** `min(int((val / max_val) * 7), 7)` over exact rationals: the floor of
      `7 * val / max_val`, capped at the last glyph. */
  function BlockIndex(v: nat, m: nat): (i: nat)
    requires m > 0
    ensures i < |Blocks|
  {
    var q := (7 * v) / m;
    if q < 7 then q else 7
  }

  /** Only the maximum (or more) reaches the full block, and exactly the values
      below a seventh of the maximum get the lowest one. */
  lemma BlockIndexEnds(v: nat, m: nat)
    requires m > 0
    ensures v <= m ==> (BlockIndex(v, m) == |Blocks| - 1 <==> v == m)
    ensures BlockIndex(v, m) == 0 <==> 7 * v < m
  {
    DivAtLeast(7 * v, m, 7);
    DivAtLeast(7 * v, m, 1);
  }

  /** A larger contribution never gets a shorter glyph. */
  lemma BlockIndexMonotone(v: nat, w: nat, m: nat)
    requires v <= w && m > 0
    ensures BlockIndex(v, m) <= BlockIndex(w, m)
  {
    DivMonotone(7 * v, 7 * w, m);
  }

  /** `create_text_sparkline`. `None` stands for a cell that is not a list (a
      missing value); such a cell and an empty list give the empty string. A
      non-empty list whose maximum is 0 divides by zero. Otherwise each value
      becomes the glyph of its `BlockIndex` relative to the maximum. */
  function Sparkline(contributions: Option<seq<nat>>): (r: Result<string>)
    ensures contributions.None? || contributions.value == [] ==> r == Ok("")
    ensures r.Err? <==> contributions.Some? && |contributions.value| > 0 && MaxOf(contributions.value) == 0
    ensures r.Err? ==> r.error == "ZeroDivisionError"
    ensures r.Ok? && contributions.Some? ==> |r.value| == |contributions.value|
    ensures r.Ok? ==> forall i :: 0 <= i < |r.value| ==> r.value[i] in Blocks
    ensures r.Ok? && contributions.Some? && contributions.value != [] ==>
      forall i :: 0 <= i < |r.value| ==>
        r.value[i] == Blocks[BlockIndex(contributions.value[i], MaxOf(contributions.value))]
  {
    if contributions.None? || contributions.value == [] then Ok("")
    else
      var values := contributions.value;
      var top := MaxOf(values);
      if top == 0 then Err("ZeroDivisionError")
      else Ok(seq(|values|, i requires 0 <= i < |values| => Blocks[BlockIndex(values[i], top)]))
  }

  /** The values equal to the maximum, and only they, are drawn as the full block;
      zero is drawn as the lowest block. */
  lemma SparklineExtremes(values: seq<nat>, i: int)
    requires Sparkline(Some(values)).Ok? && 0 <= i < |values|
    ensures Sparkline(Some(values)).value[i] == FullBlock <==> values[i] == MaxOf(values)
    ensures values[i] == 0 ==> Sparkline(Some(values)).value[i] == LowestBlock
  {
    var top := MaxOf(values);
    var k := BlockIndex(values[i], top);
    BlockIndexEnds(values[i], top);
    BlocksAscend(k, 7);
  }

  /** The glyph heights follow the order of the values. */
  lemma SparklineMonotone(values: seq<nat>, i: int, j: int)
    requires Sparkline(Some(values)).Ok? && 0 <= i < |values| && 0 <= j < |values|
    requires values[i] <= values[j]
    ensures Sparkline(Some(values)).value[i] <= Sparkline(Some(values)).value[j]
  {
    var top := MaxOf(values);
    BlockIndexMonotone(values[i], values[j], top);
    BlocksAscend(BlockIndex(values[i], top), BlockIndex(values[j], top));
  }

  /** `format_boolean`: a missing value is a question mark, a true value a check
      mark and a false value a cross. */
  function FormatBoolean(value: Option<bool>): (r: string)
    ensures r == "\U{2753}" <==> value.None?
    ensures r == "\U{2705}" <==> value == Some(true)
    ensures r == "\U{274C}" <==> value == Some(false)
  {
    if value.None? then "\U{2753}"
    else if value.value then "\U{2705}"
    else "\U{274C}"
  }

  /** Distinct cells are rendered distinctly. */
  lemma FormatBooleanInjective(a: Option<bool>, b: Option<bool>)
    requires FormatBoolean(a) == FormatBoolean(b)
    ensures a == b
  {
  }
}
