/** The progress percentage reported while chunk `chunk` is being posted:
    `((currentChunk + event.loaded / event.total) / totalChunks) * 100`,
    computed here in exact real arithmetic. */
module ProgressMath {

  function Percent(chunk: nat, loaded: real, total: real, totalChunks: nat): real
    requires 0.0 < total && chunk < totalChunks
  {
    ((chunk as real + loaded / total) / totalChunks as real) * 100.0
  }

  /** The fraction `loaded / total` of one request lies in `[0, 1]`. */
  lemma FractionInUnit(loaded: real, total: real)
    requires 0.0 <= loaded <= total && 0.0 < total
    ensures 0.0 <= loaded / total <= 1.0
    ensures loaded / total == 1.0 <==> loaded == total
  {
  }

  /** `(i + f) / n * 100` as a function of the position `i + f`. */
  lemma PercentOfPosition(chunk: nat, loaded: real, total: real, totalChunks: nat)
    requires 0.0 < total && chunk < totalChunks
    ensures Percent(chunk, loaded, total, totalChunks)
         == (chunk as real + loaded / total) * (100.0 / totalChunks as real)
  {
  }

  /** A reported percentage is never below 0 nor above 100. */
  lemma PercentInRange(chunk: nat, loaded: real, total: real, totalChunks: nat)
    requires 0.0 <= loaded <= total && 0.0 < total && chunk < totalChunks
    ensures 0.0 <= Percent(chunk, loaded, total, totalChunks) <= 100.0
  {
    FractionInUnit(loaded, total);
    PercentOfPosition(chunk, loaded, total, totalChunks);
    var unit := 100.0 / totalChunks as real;
    var pos := chunk as real + loaded / total;
    assert 0.0 <= pos <= totalChunks as real;
    assert totalChunks as real * unit == 100.0;
    assert pos * unit <= totalChunks as real * unit;
  }

  /** While chunk `chunk` is posted, the percentage stays within that chunk's
      band of the scale: from `chunk / totalChunks * 100` to
      `(chunk + 1) / totalChunks * 100`. */
  lemma PercentBand(chunk: nat, loaded: real, total: real, totalChunks: nat)
    requires 0.0 <= loaded <= total && 0.0 < total && chunk < totalChunks
    ensures chunk as real * (100.0 / totalChunks as real) <= Percent(chunk, loaded, total, totalChunks)
    ensures Percent(chunk, loaded, total, totalChunks) <= (chunk + 1) as real * (100.0 / totalChunks as real)
  {
    FractionInUnit(loaded, total);
    PercentOfPosition(chunk, loaded, total, totalChunks);
    var unit := 100.0 / totalChunks as real;
    var pos := chunk as real + loaded / total;
    assert unit > 0.0;
    assert chunk as real * unit <= pos * unit <= (chunk + 1) as real * unit;
  }

  /** While one chunk is posted, a larger fraction sent never gives a smaller
      percentage; in particular, for a fixed `total`, progress is non-decreasing
      in `loaded`. */
  lemma PercentMonotone(chunk: nat, loaded: real, total: real, loaded': real, total': real, totalChunks: nat)
    requires 0.0 < total && 0.0 < total' && chunk < totalChunks
    requires loaded / total <= loaded' / total'
    ensures Percent(chunk, loaded, total, totalChunks) <= Percent(chunk, loaded', total', totalChunks)
  {
    PercentOfPosition(chunk, loaded, total, totalChunks);
    PercentOfPosition(chunk, loaded', total', totalChunks);
    var unit := 100.0 / totalChunks as real;
    assert unit > 0.0;
    var pos := chunk as real + loaded / total;
    var pos' := chunk as real + loaded' / total';
    assert pos <= pos';
    assert pos * unit <= pos' * unit;
  }

  /** Every percentage reported for a later chunk is at least every percentage
      reported for an earlier one: the end of chunk `i` and the start of chunk
      `i + 1` both stand at `(i + 1) / totalChunks * 100`. */
  lemma PercentAcrossChunks(i: nat, loaded: real, total: real, j: nat, loaded': real, total': real, totalChunks: nat)
    requires i < j < totalChunks
    requires 0.0 <= loaded <= total && 0.0 < total
    requires 0.0 <= loaded' <= total' && 0.0 < total'
    ensures Percent(i, loaded, total, totalChunks) <= Percent(j, loaded', total', totalChunks)
  {
    FractionInUnit(loaded, total);
    FractionInUnit(loaded', total');
    PercentOfPosition(i, loaded, total, totalChunks);
    PercentOfPosition(j, loaded', total', totalChunks);
    var unit := 100.0 / totalChunks as real;
    assert unit > 0.0;
    var pos := i as real + loaded / total;
    var pos' := j as real + loaded' / total';
    assert pos <= pos';
    assert pos * unit <= pos' * unit;
  }

  /** 100 is reported exactly when the last chunk has been sent in full. */
  lemma PercentIsHundred(chunk: nat, loaded: real, total: real, totalChunks: nat)
    requires 0.0 <= loaded <= total && 0.0 < total && chunk < totalChunks
    ensures Percent(chunk, loaded, total, totalChunks) == 100.0
        <==> chunk == totalChunks - 1 && loaded == total
  {
    FractionInUnit(loaded, total);
    PercentOfPosition(chunk, loaded, total, totalChunks);
    var unit := 100.0 / totalChunks as real;
    var pos := chunk as real + loaded / total;
    assert totalChunks as real * unit == 100.0;
    if pos * unit == 100.0 {
      assert pos * unit == totalChunks as real * unit;
      assert pos == totalChunks as real;
    }
  }
}
