/** `node::back_off`: the pause before each write, and the counter it amounts to. */
module Backoff {
  const MAX_BACKOFF_TIME := 1024
  const MAX_LEVEL := 11

  function BackOff(time: nat, value: bool): nat {
    if value then
      var raised := if time != 0 then 2 * time else 1;
      if raised < MAX_BACKOFF_TIME then raised else MAX_BACKOFF_TIME
    else if time > 1 then time / 2 else 0
  }

  function BackoffAfter(values: seq<bool>): nat {
    if values == [] then 0 else BackOff(BackoffAfter(values[..|values| - 1]), values[|values| - 1])
  }

  lemma BackoffAppend(values: seq<bool>, value: bool)
    ensures BackoffAfter(values + [value]) == BackOff(BackoffAfter(values), value)
  {
    assert (values + [value])[..|values|] == values;
  }

  /** A counter that moves by one and stops at 0 and at `MAX_LEVEL`. */
  function LevelAfter(values: seq<bool>): (level: nat)
    ensures level <= 11
  {
    if values == [] then 0
    else
      var level := LevelAfter(values[..|values| - 1]);
      if values[|values| - 1] then if level < MAX_LEVEL then level + 1 else level
      else if level > 0 then level - 1 else 0
  }

  function Pow2(n: nat): (p: nat)
    ensures p >= 1
  {
    if n == 0 then 1 else 2 * Pow2(n - 1)
  }

  function TimeOfLevel(level: nat): nat {
    if level == 0 then 0 else Pow2(level - 1)
  }

  lemma Pow2Increases(m: nat, n: nat)
    requires m < n
    ensures Pow2(m) < Pow2(n)
  {
    if m < n - 1 {
      Pow2Increases(m, n - 1);
    }
  }

  lemma TopLevel()
    ensures Pow2(MAX_LEVEL - 1) == MAX_BACKOFF_TIME
  {
    assert Pow2(2) == 4;
    assert Pow2(4) == 16;
    assert Pow2(6) == 64;
    assert Pow2(8) == 256;
  }

  /** After any calls of `back_off` the pause is that of the saturating counter, so at most 1024. */
  lemma {:induction false} BackoffIsSaturatingCounter(values: seq<bool>)
    ensures BackoffAfter(values) == TimeOfLevel(LevelAfter(values)) <= 1024
  {
    TopLevel();
    if values != [] {
      var earlier := values[..|values| - 1];
      BackoffIsSaturatingCounter(earlier);
      var level := LevelAfter(earlier);
      if 1 < level {
        assert Pow2(level - 1) == 2 * Pow2(level - 2);
      }
      if 0 < level < MAX_LEVEL {
        assert Pow2(level) == 2 * Pow2(level - 1);
        if level < MAX_LEVEL - 1 {
          Pow2Increases(level, MAX_LEVEL - 1);
        }
        if level > 1 {
          Pow2Increases(level - 1, MAX_LEVEL - 1);
        }
      }
    }
  }

  function Repeat(value: bool, n: nat): seq<bool> {
    seq(n, _ => value)
  }

  lemma {:induction false} CallsAddUp(values: seq<bool>, value: bool, n: nat)
    ensures LevelAfter(values + Repeat(value, n)) ==
            var level := LevelAfter(values);
            if value then (if level + n < MAX_LEVEL then level + n else MAX_LEVEL)
            else if level > n then level - n else 0
  {
    if n == 0 {
      assert values + Repeat(value, 0) == values;
    } else {
      CallsAddUp(values, value, n - 1);
      assert (values + Repeat(value, n))[..|values| + n - 1] == values + Repeat(value, n - 1);
    }
  }

  /** Eleven good messages in a row remove the pause, whatever came before. */
  lemma ElevenCallsClear(values: seq<bool>)
    ensures BackoffAfter(values + Repeat(false, 11)) == 0
  {
    CallsAddUp(values, false, MAX_LEVEL);
    BackoffIsSaturatingCounter(values + Repeat(false, MAX_LEVEL));
  }

  /** Eleven busy answers in a row reach the longest pause, 1024 ms, from anywhere. */
  lemma ElevenCallsSaturate(values: seq<bool>)
    ensures BackoffAfter(values + Repeat(true, 11)) == 1024
  {
    CallsAddUp(values, true, 11);
    BackoffIsSaturatingCounter(values + Repeat(true, 11));
    TopLevel();
  }
}
