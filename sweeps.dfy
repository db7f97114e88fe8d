/** The sweep in main: every ordered pair of formats, by source then by
    destination, stopping at the first trial that fails. */
module Sweeps {
  import opened Formats
  import opened Arith
  import opened Layouts
  import Trials

  /** main's fixed image size. */
  const Width: nat := 1024
  const Height: nat := 768

  /** Row s of the sweep: (s, 0), ..., (s, n - 1). */
  function RowPairs(n: nat, s: nat): (r: seq<(nat, nat)>)
    ensures |r| == n && forall d :: 0 <= d < n ==> r[d] == (s, d)
  {
    seq(n, d requires 0 <= d < n => (s, d))
  }

  /** The first `rows` rows of the sweep over n formats. */
  function Pairs(n: nat, rows: nat): seq<(nat, nat)>
  {
    if rows == 0 then [] else Pairs(n, rows - 1) + RowPairs(n, rows - 1)
  }

  /** The sweep visits pair number k as (k / n, k % n): row-major order, each
      ordered pair exactly once. */
  lemma {:induction false} PairsRowMajor(n: nat, rows: nat, k: nat)
    requires k < rows * n
    ensures |Pairs(n, rows)| == rows * n && Pairs(n, rows)[k] == (k / n, k % n)
  {
    PairsLength(n, rows);
    var prev := (rows - 1) * n;
    assert rows * n == prev + n;
    if k < prev {
      PairsRowMajor(n, rows - 1, k);
    } else {
      DivModUnique(k, n, rows - 1, k - prev);
    }
  }

  lemma {:induction false} PairsLength(n: nat, rows: nat)
    ensures |Pairs(n, rows)| == rows * n
  {
    if rows > 0 {
      PairsLength(n, rows - 1);
      assert rows * n == (rows - 1) * n + n;
    }
  }

  /** An earlier stage of the sweep is a prefix of every later one. */
  lemma {:induction false} PairsPrefix(n: nat, rows: nat, more: nat)
    requires rows <= more
    ensures Pairs(n, rows) <= Pairs(n, more)
  {
    if rows < more {
      PairsPrefix(n, rows, more - 1);
    }
  }

  /** The formats the sweep may use: every catalog entry but the last. */
  ghost predicate Usable(catalog: seq<PF>)
  {
    forall k :: 0 <= k < |catalog| - 1 ==>
      WellFormed(catalog[k]) && Width * catalog[k].size <= Trials.MaxRowBytes
  }

  /** What doTest returns for pair p, given malloc's success for its two
      buffers. At main's width the validation stride and the padded pitch
      coincide (Trials.Width1024StridesAgree), so this is also what the
      as-written doTest returns. */
  ghost function PairOutcome(catalog: seq<PF>, malloc: (nat, nat) -> (bool, bool), p: (nat, nat)): int
    requires Usable(catalog) && p.0 < |catalog| - 1 && p.1 < |catalog| - 1
  {
    var src, dst := catalog[p.0], catalog[p.1];
    Trials.TrialOutcome(Width, Height, src, dst, malloc(p.0, p.1).0, malloc(p.0, p.1).1, BmpPad(Width * dst.size))
  }

  /** Every pair of ps is a pair of usable formats whose trial returned 0. */
  ghost predicate Passed(catalog: seq<PF>, malloc: (nat, nat) -> (bool, bool), ps: seq<(nat, nat)>)
    requires Usable(catalog)
  {
    forall k :: 0 <= k < |ps| ==>
      ps[k].0 < |catalog| - 1 && ps[k].1 < |catalog| - 1 && PairOutcome(catalog, malloc, ps[k]) == 0
  }

  /** Every format the sweep uses round-trips. */
  ghost predicate AllRoundTrip(catalog: seq<PF>)
  {
    forall k :: 0 <= k < |catalog| - 1 ==> RoundTrips(catalog[k])
  }

  /** With round-tripping formats, a pair fails only when malloc does. */
  lemma {:induction false} PairFailsOnlyOnMalloc(catalog: seq<PF>, malloc: (nat, nat) -> (bool, bool), p: (nat, nat))
    requires Usable(catalog) && AllRoundTrip(catalog) && p.0 < |catalog| - 1 && p.1 < |catalog| - 1
    ensures PairOutcome(catalog, malloc, p) == -1 <==> !malloc(p.0, p.1).0 || !malloc(p.0, p.1).1
  {
    if malloc(p.0, p.1).0 && malloc(p.0, p.1).1 {
      Trials.PaddedTrialSucceeds(Width, Height, catalog[p.0], catalog[p.1]);
    }
  }

  /** One step of the sweep: fetch the destination format and run doTest, as
      written, on the pair. At main's width its result is the outcome of the
      intended validation. */
  method RunPair(catalog: seq<PF>, malloc: (nat, nat) -> (bool, bool), srcpf: PF, srcFormat: nat, dstFormat: nat)
    returns (r: int)
    requires Usable(catalog) && srcFormat < |catalog| - 1 && dstFormat < |catalog| - 1
    requires srcpf == catalog[srcFormat]
    ensures r == PairOutcome(catalog, malloc, (srcFormat, dstFormat))
    ensures r == 0 || r == -1
  {
    var dstpf := catalog[dstFormat];
    var ok := malloc(srcFormat, dstFormat);
    var log;
    r, log := Trials.DoTest(Width, Height, srcpf, dstpf, ok.0, ok.1);
    Trials.Width1024StridesAgree(Height, srcpf, dstpf, ok.0, ok.1);
  }

  /** The inner loop of the sweep for one source format: the destinations in
      order, stopping after the first pair whose trial returns -1. `row` lists
      the pairs tested and `stopped` says whether the loop was cut short. */
  method SweepRow(catalog: seq<PF>, malloc: (nat, nat) -> (bool, bool), srcFormat: nat)
    returns (row: seq<(nat, nat)>, stopped: bool)
    requires Usable(catalog) && srcFormat < |catalog| - 1
    ensures row <= RowPairs(|catalog| - 1, srcFormat)
    ensures stopped ==>
      (|row| > 0 && Passed(catalog, malloc, row[..|row| - 1]) && PairOutcome(catalog, malloc, row[|row| - 1]) == -1)
    ensures !stopped ==> row == RowPairs(|catalog| - 1, srcFormat) && Passed(catalog, malloc, row)
    ensures AllRoundTrip(catalog) && (forall s: nat, d: nat :: malloc(s, d) == (true, true)) ==> !stopped
  {
    var n := |catalog| - 1;
    var srcpf := catalog[srcFormat];
    row, stopped := [], false;
    var dstFormat := 0;
    while dstFormat < |catalog| - 1
      invariant dstFormat <= n
      invariant row == RowPairs(n, srcFormat)[..dstFormat]
      invariant Passed(catalog, malloc, row)
    {
      var r := RunPair(catalog, malloc, srcpf, srcFormat, dstFormat);
      ghost var before := row;
      row := row + [(srcFormat, dstFormat)];
      assert row[..|row| - 1] == before;
      if r == -1 {
        if AllRoundTrip(catalog) {
          PairFailsOnlyOnMalloc(catalog, malloc, (srcFormat, dstFormat));
        }
        stopped := true;
        assert row == RowPairs(n, srcFormat)[..dstFormat + 1];
        return;
      }
      dstFormat := dstFormat + 1;
    }
    assert RowPairs(n, srcFormat)[..dstFormat] == RowPairs(n, srcFormat);
  }

  /** main's sweep. `catalog` lists pf_get(0) ... pf_get(PIXELFORMATS - 1);
      both loops stop one short of its end. `malloc(s, d)` says whether the
      trial for (s, d) gets its source and its destination buffer. `tested`
      lists the pairs handed to doTest, in order.
      The sweep stops after the first pair whose trial returns -1, and main
      returns 0 either way. */
  method Sweep(catalog: seq<PF>, malloc: (nat, nat) -> (bool, bool))
    returns (retval: int, tested: seq<(nat, nat)>)
    requires Usable(catalog)
    ensures retval == 0
    ensures var n := if |catalog| > 0 then |catalog| - 1 else 0;
      tested <= Pairs(n, n)
    ensures forall k :: 0 <= k < |tested| ==> tested[k].0 < |catalog| - 1 && tested[k].1 < |catalog| - 1
    ensures |tested| > 0 ==> Passed(catalog, malloc, tested[..|tested| - 1])
    ensures var n := if |catalog| > 0 then |catalog| - 1 else 0;
      |tested| < n * n ==> |tested| > 0 && PairOutcome(catalog, malloc, tested[|tested| - 1]) == -1
    ensures var n := if |catalog| > 0 then |catalog| - 1 else 0;
      AllRoundTrip(catalog) && (forall s: nat, d: nat :: malloc(s, d) == (true, true)) ==> tested == Pairs(n, n)
  {
    retval := 0;
    tested := [];
    var n: nat := if |catalog| > 0 then |catalog| - 1 else 0;
    PairsLength(n, n);
    var srcFormat := 0;
    while srcFormat < |catalog| - 1
      invariant srcFormat <= n
      invariant tested == Pairs(n, srcFormat)
      invariant Passed(catalog, malloc, tested)
    {
      var row, stopped := SweepRow(catalog, malloc, srcFormat);
      PairsPrefix(n, srcFormat + 1, n);
      PairsLength(n, srcFormat);
      ghost var before := tested;
      tested := tested + row;
      if stopped {
        assert tested <= Pairs(n, srcFormat + 1);
        assert tested[..|tested| - 1] == before + row[..|row| - 1];
        PassedAppend(catalog, malloc, before, row[..|row| - 1]);
        return;
      }
      PassedAppend(catalog, malloc, before, row);
      srcFormat := srcFormat + 1;
    }
  }

  lemma PassedAppend(catalog: seq<PF>, malloc: (nat, nat) -> (bool, bool), ps: seq<(nat, nat)>, qs: seq<(nat, nat)>)
    requires Usable(catalog) && Passed(catalog, malloc, ps) && Passed(catalog, malloc, qs)
    ensures Passed(catalog, malloc, ps + qs)
  {
    forall k | 0 <= k < |ps + qs|
      ensures (ps + qs)[k] == if k < |ps| then ps[k] else qs[k - |ps|]
    {
    }
  }
}
