/** What a deployment will spend on backends: the limits its file sets, filled in and judged. */
module DeploymentLimits {
  import opened Prelude

  /** As the file has them; zero means not set, and spans are in nanoseconds. */
  datatype Limits = Limits(maxProcesses: int, maxProcessesPerSubject: int, maxHeaderBytes: int, idleTtl: int, probeTimeout: int)

  const DEFAULTS := Limits(64, 8, 8192, 300_000_000_000, 2_000_000_000)

  datatype Problem = Negative(field: nat) | SubjectExceedsTotal

  function Min(a: int, b: int): int { if b < a then b else a }
  function Fill(value: int, default: int): int { if value == 0 then default else value }

  function WithDefaults(l: Limits): Limits {
    var total := Fill(l.maxProcesses, DEFAULTS.maxProcesses);
    Limits(total,
           Fill(l.maxProcessesPerSubject, Min(DEFAULTS.maxProcessesPerSubject, total)),
           Fill(l.maxHeaderBytes, DEFAULTS.maxHeaderBytes),
           Fill(l.idleTtl, DEFAULTS.idleTtl),
           Fill(l.probeTimeout, DEFAULTS.probeTimeout))
  }

  class File {
    var limits: Limits

    constructor (written: Limits)
      ensures limits == written
    {
      limits := written;
    }

    /** Every limit that is zero becomes its default. */
    method ApplyDefaults()
      modifies this
      ensures limits == WithDefaults(old(limits))
    {
      if limits.maxProcesses == 0 {
        limits := limits.(maxProcesses := DEFAULTS.maxProcesses);
      }
      if limits.maxProcessesPerSubject == 0 {
        limits := limits.(maxProcessesPerSubject := Min(DEFAULTS.maxProcessesPerSubject, limits.maxProcesses));
      }
      if limits.idleTtl == 0 {
        limits := limits.(idleTtl := DEFAULTS.idleTtl);
      }
      if limits.probeTimeout == 0 {
        limits := limits.(probeTimeout := DEFAULTS.probeTimeout);
      }
      if limits.maxHeaderBytes == 0 {
        limits := limits.(maxHeaderBytes := DEFAULTS.maxHeaderBytes);
      }
    }
  }

  function Values(l: Limits): seq<int> {
    [l.maxProcesses, l.maxProcessesPerSubject, l.maxHeaderBytes, l.idleTtl, l.probeTimeout]
  }

  predicate Acceptable(l: Limits) {
    (forall v :: v in Values(l) ==> v >= 0) && l.maxProcessesPerSubject <= l.maxProcesses
  }

  /** The first limit that is negative, or else a subject's share that exceeds the whole. */
  method Validate(l: Limits) returns (problem: Option<Problem>)
    ensures problem == None <==> Acceptable(l)
    ensures problem.Some? && problem.value.Negative? ==>
              var k := problem.value.field; k < 5 && Values(l)[k] < 0 && forall j :: 0 <= j < k ==> Values(l)[j] >= 0
    ensures problem == Some(SubjectExceedsTotal) ==> forall v :: v in Values(l) ==> v >= 0
  {
    var values := Values(l);
    for i := 0 to |values|
      invariant forall j :: 0 <= j < i ==> values[j] >= 0
    {
      if values[i] < 0 {
        assert values[i] in Values(l);
        return Some(Negative(i));
      }
    }
    if l.maxProcessesPerSubject > l.maxProcesses {
      return Some(SubjectExceedsTotal);
    }
    return None;
  }

  /**
   A limit that the file sets is kept, whatever it is. One that it does not is 64 processes, 8192 header bytes, five
   minutes of idleness and two seconds for the probe; and 8 processes of one subject, or all there may be if that is fewer.
   */
  lemma WrittenIsKept(l: Limits)
    ensures var r := WithDefaults(l);
            && (if l.maxProcesses == 0 then r.maxProcesses == 64 else r.maxProcesses == l.maxProcesses)
            && (l.maxProcessesPerSubject != 0 ==> r.maxProcessesPerSubject == l.maxProcessesPerSubject)
            && (l.maxProcessesPerSubject == 0 ==> r.maxProcessesPerSubject <= 8 && r.maxProcessesPerSubject <= r.maxProcesses
                                                  && r.maxProcessesPerSubject in {8, r.maxProcesses})
            && (if l.maxHeaderBytes == 0 then r.maxHeaderBytes == 8192 else r.maxHeaderBytes == l.maxHeaderBytes)
            && (if l.idleTtl == 0 then r.idleTtl == 5 * 60 * 1_000_000_000 else r.idleTtl == l.idleTtl)
            && (if l.probeTimeout == 0 then r.probeTimeout == 2 * 1_000_000_000 else r.probeTimeout == l.probeTimeout)
  {
  }

  /**
   A file's limits are accepted exactly when none is negative and a subject's share, if the file sets one,
   does not exceed the whole as it stands after the defaults; a file that lowers only the whole is not refused.
   */
  lemma AcceptedExactly(l: Limits)
    ensures Acceptable(WithDefaults(l)) <==>
              (forall v :: v in Values(l) ==> v >= 0) && l.maxProcessesPerSubject <= WithDefaults(l).maxProcesses
  {
    var v, w := Values(l), Values(WithDefaults(l));
    assert v[0] in v && v[1] in v && v[2] in v && v[3] in v && v[4] in v;
    assert w[0] in w && w[1] in w && w[2] in w && w[3] in w && w[4] in w;
  }

  /** Accepted limits leave room for work: every one is positive, and reaping is off only for a lifetime of one nanosecond. */
  lemma AcceptedLimitsAreUsable(l: Limits)
    requires Acceptable(WithDefaults(l))
    ensures var r := WithDefaults(l);
            && 1 <= r.maxProcessesPerSubject <= r.maxProcesses
            && r.idleTtl >= 1 && r.probeTimeout >= 1 && r.maxHeaderBytes >= 1
            && (r.idleTtl / 2 == 0 <==> r.idleTtl == 1)
            && WithDefaults(r) == r
  {
    var w := Values(WithDefaults(l));
    assert w[0] in w && w[1] in w && w[2] in w && w[3] in w && w[4] in w;
  }
}
