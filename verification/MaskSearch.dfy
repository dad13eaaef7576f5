/** The choice of the mask pattern: trying all eight in place and keeping the one with the least penalty. */
module MaskSearch {
  import opened Bytes
  import opened Grid
  import opened Mask
  import opened Penalty

  /** The largest `long` that every C implementation has. */
  const LONG_MAX := 0x7FFF_FFFF

  ghost predicate AreFormatWords(words: seq<seq<bool>>) {
    |words| == 8 && forall m | 0 <= m < 8 :: |words[m]| == 15
  }

  /** The symbol with the given mask and its format bits. */
  function Finished(function_: seq<bool>, g: seq<bool>, n: nat, words: seq<seq<bool>>, mask: nat): (r: seq<bool>)
    requires |function_| == |g| == n * n && AreFormatWords(words) && mask < 8
    ensures |r| == |g|
  {
    WithFormat(Masked(function_, g, n, mask), n, words[mask])
  }

  ghost function MaskScore(function_: seq<bool>, g: seq<bool>, n: nat, words: seq<seq<bool>>, mask: nat): int
    requires |function_| == |g| == n * n && n > 0 && AreFormatWords(words) && mask < 8
  {
    Score(Finished(function_, g, n, words, mask), n)
  }

  /** No mask below `limit` has a smaller penalty than `mask`, and no lower-numbered one has the same. */
  ghost predicate IsBestBelow(function_: seq<bool>, g: seq<bool>, n: nat, words: seq<seq<bool>>, mask: int, limit: nat)
    requires |function_| == |g| == n * n && n > 0 && AreFormatWords(words) && limit <= 8
  {
    && 0 <= mask < limit
    && (forall m: nat | m < limit :: MaskScore(function_, g, n, words, mask) <= MaskScore(function_, g, n, words, m))
    && (forall m: nat | m < mask :: MaskScore(function_, g, n, words, mask) < MaskScore(function_, g, n, words, m))
  }

  /** `current` is the unmasked symbol, perhaps with format bits left over from an earlier trial. */
  ghost predicate IsUnmasked(current: seq<bool>, g: seq<bool>, n: nat)
    requires |g| == n * n
  {
    current == g || exists word: seq<bool> | |word| == 15 :: current == WithFormat(g, n, word)
  }

  /** A trial scores the symbol that encoding with this mask alone would produce, whatever format bits are
      left over; undoing the mask leaves the unmasked symbol except for format bits. */
  lemma TrialIsFinished(function_: seq<bool>, g: seq<bool>, n: nat, words: seq<seq<bool>>, mask: nat, current: seq<bool>)
    requires |function_| == |g| == n * n && AreFormatWords(words) && mask < 8
    requires CoversFormat(function_, n) && IsUnmasked(current, g, n)
    ensures |current| == n * n
    ensures WithFormat(Masked(function_, current, n, mask), n, words[mask]) == Finished(function_, g, n, words, mask)
    ensures Masked(function_, Finished(function_, g, n, words, mask), n, mask) == WithFormat(g, n, words[mask])
    ensures IsUnmasked(WithFormat(g, n, words[mask]), g, n)
  {
    hide Masked, WithFormat;
    if current != g {
      var word: seq<bool> :| |word| == 15 && current == WithFormat(g, n, word);
      MaskCommutesWithFormat(function_, g, n, mask, word);
      FormatOverwrites(Masked(function_, g, n, mask), n, word, words[mask]);
    }
    MaskCommutesWithFormat(function_, Masked(function_, g, n, mask), n, mask, words[mask]);
    MaskInvolution(function_, g, n, mask);
  }

  /** `mask` is -1 for an automatic choice. */
  method ChooseMask(functionModules: array<Byte>, qrcode: array<Byte>, mask: int, words: seq<seq<bool>>)
    returns (chosen: int)
    requires functionModules != qrcode && -1 <= mask <= 7 && AreFormatWords(words)
    requires IsQrCode(functionModules[..]) && IsQrCode(qrcode[..])
    requires Size(functionModules[..]) == Size(qrcode[..]) && Size(qrcode[..]) % 2 == 1
    requires CoversFormat(View(functionModules), Size(qrcode[..]))
    modifies qrcode
    ensures IsQrCode(qrcode[..]) && Size(qrcode[..]) == old(Size(qrcode[..]))
    ensures if mask == -1
            then IsBestBelow(View(functionModules), old(View(qrcode)), Size(qrcode[..]), words, chosen, 8)
            else chosen == mask
    ensures View(qrcode) == Finished(View(functionModules), old(View(qrcode)), Size(qrcode[..]), words, chosen)
    ensures mask == -1 ==>
      forall m: nat | m < 8 ::
        var other := MaskScore(View(functionModules), old(View(qrcode)), Size(qrcode[..]), words, m);
        Score(View(qrcode), Size(qrcode[..])) <= other
        && (other == Score(View(qrcode), Size(qrcode[..])) ==> chosen <= m)
  {
    hide Value, View, Masked, WithFormat, CoversFormat, Score;
    ghost var function_, g, n := View(functionModules), View(qrcode), Size(qrcode[..]);
    chosen := mask;
    if mask == -1 {
      var minPenalty := LONG_MAX;
      for i := 0 to 8
        invariant IsQrCode(qrcode[..]) && Size(qrcode[..]) == n
        invariant IsUnmasked(View(qrcode), g, n)
        invariant if i == 0 then minPenalty == LONG_MAX
                  else IsBestBelow(function_, g, n, words, chosen, i)
                       && minPenalty == MaskScore(function_, g, n, words, chosen)
      {
        TrialIsFinished(function_, g, n, words, i, View(qrcode));
        ApplyMask(functionModules, qrcode, i);
        DrawFormatBits(qrcode, words[i]);
        var penalty := GetPenaltyScore(qrcode);
        ScoreBound(View(qrcode), n);
        if penalty < minPenalty {
          chosen := i;
          minPenalty := penalty;
        }
        ApplyMask(functionModules, qrcode, i);
      }
    }
    TrialIsFinished(function_, g, n, words, chosen, View(qrcode));
    ApplyMask(functionModules, qrcode, chosen);
    DrawFormatBits(qrcode, words[chosen]);
  }
}
