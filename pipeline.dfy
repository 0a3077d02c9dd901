/**
 * How the two halves meet: a result stored under a directory that
 * `make_dirs` named is decoded by `extract_results` into the run's system
 * and basis, and `select_results` reads the step index back as its x value.
 */
module Pipeline {
  import opened Wrappers
  import opened Decimal
  import opened Text
  import ReadCalc
  import RunCalc

  /** Decoding `{top}/{name}_{s}{e}_{i}_{basis}/{orbital}/{file}`: the system is everything before the basis. */
  lemma DecodeRunDirectory(top: string, b: RunCalc.Base, i: nat, orbital: string, filename: string)
    requires '_' !in b.basis
    ensures ReadCalc.DecodePath([top, RunCalc.DirName(b, i), orbital, filename])
            == Ok(ReadCalc.PathMeta(RunCalc.Head(b) + NatToString(i), b.basis, orbital, "hf", None, filename))
  {
    var system := RunCalc.Head(b) + NatToString(i);
    assert RunCalc.DirName(b, i) == system + ['_'] + b.basis;
    RSplitLastOf(system, b.basis, '_');
  }

  /** The x value of such a system is the step index `make_dirs` gave it. */
  lemma RunSystemX(b: RunCalc.Base, i: nat)
    ensures ReadCalc.XValue(RunCalc.Head(b) + NatToString(i)) == Some(NatToString(i))
  {
    var ix := NatToString(i);
    var front := b.name + "_" + RunCalc.Templates(b);
    assert '_' !in ix;
    assert RunCalc.Head(b) + ix == front + ['_'] + ix;
    RSplitLastOf(front, ix, '_');
  }

  /**
   * Reading the x value back as an integer, as `int` does, gives the step
   * index; `dtype=int` gives it back while it fits in int64, and raises
   * OverflowError from 2^63 on.
   */
  lemma RunSystemIndex(b: RunCalc.Base, i: nat)
    ensures ParseInt(ReadCalc.XValue(RunCalc.Head(b) + NatToString(i)).value) == Some(i)
    ensures ReadCalc.Int64Of(ReadCalc.XValue(RunCalc.Head(b) + NatToString(i)).value)
            == if ReadCalc.InInt64(i) then Ok(i) else Err(ReadCalc.OutOfRange(NatToString(i)))
  {
    RunSystemX(b, i);
    NatParsesAsInt(i);
  }
}
