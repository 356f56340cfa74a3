/** The sample buffer and the logs of one resource: how the logs tile the history of polls. */
module SampleLogs {
  import opened Config
  import opened Averaging
  import opened Text
  import Triggers

  /** What a circular buffer of that capacity retains of everything pushed into it. */
  function Retained<T>(pushed: seq<T>, capacity: nat): seq<T>
  {
    if |pushed| <= capacity then pushed else pushed[|pushed| - capacity..]
  }

  /** boost::circular_buffer::push_back. */
  function PushBack<T>(buffer: seq<T>, capacity: nat, x: T): seq<T>
  {
    if capacity == 0 then buffer
    else if |buffer| < capacity then buffer + [x]
    else buffer[1..] + [x]
  }

  lemma PushRetains<T>(pushed: seq<T>, capacity: nat, x: T)
    ensures PushBack(Retained(pushed, capacity), capacity, x) == Retained(pushed + [x], capacity)
  {}

  /** The last `k` samples, newest first, as reverse iterators visit them. */
  function Newest(samples: seq<real>, k: nat): (newest: seq<real>)
    requires k <= |samples|
    ensures |newest| == k
  {
    seq(k, j requires 0 <= j < k => samples[|samples| - 1 - j])
  }

  /** How many samples the loop takes for a requested number: never none, never more than there are. */
  function Taken(available: nat, n: int): (k: nat)
    requires available >= 1
    ensures 1 <= k <= available
  {
    if n <= 1 then 1 else if n <= available then n else available
  }

  function MeanOf(samples: seq<real>, n: int): real
    requires samples != []
  {
    Accumulated(Newest(samples, Taken(|samples|, n)), if n >= 1 then n as real else 1.0)
  }

  /** get*SamplesMean. */
  method SamplesMean(samples: seq<real>, samplesNumber: int) returns (state: real)
    requires samples != []
    ensures state == MeanOf(samples, samplesNumber)
  {
    ghost var n := if samplesNumber >= 1 then samplesNumber as real else 1.0;
    state := samples[|samples| - 1];
    var i := 1;
    assert Newest(samples, 1) == [state];
    while i < |samples| && i < samplesNumber
      invariant 1 <= i <= |samples| && (i == 1 || i <= samplesNumber)
      invariant state == Accumulated(Newest(samples, i), n)
    {
      assert Newest(samples, i + 1)[..i] == Newest(samples, i);
      state := state + samples[|samples| - 1 - i];
      state := state / samplesNumber as real;
      i := i + 1;
    }
  }

  /** A resolution below 1 logs on every poll. */
  function Span(resolution: int): (span: nat)
    ensures span >= 1
  {
    if resolution >= 1 then resolution else 1
  }

  /** How many whole windows of that span so many polls make up: floor(length / span). */
  function Whole(length: nat, span: nat): nat
    requires span >= 1
  {
    length / span
  }

  lemma WholeNext(length: nat, span: nat)
    requires span >= 1
    ensures Whole(length + 1, span) == Whole(length, span) + if (length + 1) % span == 0 then 1 else 0
    ensures (length + 1) % span == if length % span + 1 == span then 0 else length % span + 1
    ensures (length + 1) % span == 0 ==> (Whole(length, span) + 1) * span == length + 1
  {
    Triggers.OneMore(length, span);
    assert length + 1 == (length + 1) / span * span + (length + 1) % span;
  }

  lemma WindowFits(length: nat, span: nat, k: nat)
    requires span >= 1 && k < Whole(length, span)
    ensures 0 <= k * span && (k + 1) * span == k * span + span <= length
  {
    assert length == length / span * span + length % span;
    if k + 1 < length / span {
      Triggers.Gap(k + 1, length / span, span);
    }
  }

  /** The k-th window of the history. */
  function Window(history: seq<real>, span: nat, k: nat): (window: seq<real>)
    requires span >= 1 && k < Whole(|history|, span)
    ensures |window| == span
  {
    WindowFits(|history|, span, k);
    history[k * span..(k + 1) * span]
  }

  /** Everything a log with that resolution must have been given after a history of polls, oldest first. */
  function Entries(history: seq<real>, resolution: int): (entries: seq<real>)
    ensures |entries| == Whole(|history|, Span(resolution))
  {
    var count := Whole(|history|, Span(resolution));
    seq(count, k requires 0 <= k < count => Entry(history, resolution, k))
  }

  /** The k-th entry, computed from exactly the k-th window. */
  function Entry(history: seq<real>, resolution: int, k: nat): real
    requires k < Whole(|history|, Span(resolution))
  {
    MeanOf(Window(history, Span(resolution), k), resolution)
  }

  lemma WindowKept(history: seq<real>, x: real, span: nat, k: nat)
    requires span >= 1 && k < Whole(|history|, span)
    ensures k < Whole(|history + [x]|, span) && Window(history + [x], span, k) == Window(history, span, k)
  {
    WholeNext(|history|, span);
    WindowFits(|history|, span, k);
    hide Whole;
  }

  /** The last window, once complete, is the end of the history. */
  lemma LastWindow(history: seq<real>, x: real, span: nat)
    requires span >= 1 && (|history| + 1) % span == 0
    ensures Whole(|history| + 1, span) == Whole(|history|, span) + 1 && span <= |history| + 1
    ensures Window(history + [x], span, Whole(|history|, span)) == (history + [x])[|history| + 1 - span..]
  {
    WholeNext(|history|, span);
    WindowFits(|history| + 1, span, Whole(|history|, span));
    hide Whole;
  }

  /** One poll adds the mean of the newest window when it completes one, and nothing otherwise. */
  lemma EntriesNext(history: seq<real>, x: real, resolution: int)
    ensures var span := Span(resolution); var longer := history + [x];
            if (|history| + 1) % span == 0
            then span <= |longer| && Entries(longer, resolution) ==
                 Entries(history, resolution) + [MeanOf(longer[|longer| - span..], resolution)]
            else Entries(longer, resolution) == Entries(history, resolution)
  {
    hide Whole, Window, MeanOf, Span;
    var span, longer, count := Span(resolution), history + [x], Whole(|history|, Span(resolution));
    WholeNext(|history|, span);
    forall k | 0 <= k < count ensures Entry(longer, resolution, k) == Entry(history, resolution, k) {
      WindowKept(history, x, span, k);
    }
    if (|history| + 1) % span == 0 {
      LastWindow(history, x, span);
      assert Entry(longer, resolution, count) == MeanOf(longer[|longer| - span..], resolution);
    }
    hide Entry;
  }

  /** Looking only at what the sample buffer retains makes no difference, if it retains a whole window. */
  lemma MeanOfRetained(history: seq<real>, capacity: nat, resolution: int)
    requires history != [] && Span(resolution) <= capacity && Span(resolution) <= |history|
    ensures Retained(history, capacity) != []
    ensures MeanOf(Retained(history, capacity), resolution) ==
            MeanOf(history[|history| - Span(resolution)..], resolution)
  {
    var span, retained := Span(resolution), Retained(history, capacity);
    assert Newest(retained, span) == Newest(history[|history| - span..], span);
  }

  lemma EntryValue(history: seq<real>, resolution: int, k: nat)
    requires resolution >= 1 && k < Whole(|history|, resolution)
    ensures Entry(history, resolution, k) ==
            WeightedSum(Newest(Window(history, resolution, k), resolution), resolution, resolution as real)
  {
    hide WeightedSum, Accumulated, Window, Newest, Whole;
    ClosedForm(Newest(Window(history, resolution, k), resolution), resolution as real);
  }

  /**
   * What stands in a log of resolution r after n polls: min(capacity, floor(n / r)) entries, the latest ones, each the
   * weighted sum of exactly its own r samples, newest first.
   */
  lemma LogContents(history: seq<real>, resolution: int, capacity: nat, k: nat)
    requires resolution >= 1 && k < |Retained(Entries(history, resolution), capacity)|
    ensures var kept, all := |Retained(Entries(history, resolution), capacity)|, Whole(|history|, resolution);
            && kept == (if all <= capacity then all else capacity)
            && all - kept + k < all
            && Retained(Entries(history, resolution), capacity)[k] ==
               WeightedSum(Newest(Window(history, resolution, all - kept + k), resolution),
                           resolution, resolution as real)
  {
    hide WeightedSum, Window, Newest, Whole, Entry;
    var all := Whole(|history|, resolution);
    EntryValue(history, resolution, all - |Retained(Entries(history, resolution), capacity)| + k);
  }

  datatype Log = Log(buffer: seq<real>, capacity: nat, secondsSinceLastLog: int)

  /** Integer division as the source's compiler does it: toward zero. */
  function Truncated(a: int, b: int): (q: int)
    requires b >= 1
    ensures a >= 0 ==> q == a / b
    ensures q < 0 <==> a <= -b
  {
    if a >= 0 then a / b else -(-a / b)
  }

  /** The capacity asked for; below 0 it becomes a size no allocator accepts. */
  function SizeOf(logType: LogType): int
  {
    if logType.resolution > 0 then Truncated(logType.duration, logType.resolution) else 1
  }

  /** The capacity for a resolution comes from the duration listed last for it. */
  function CapacityOf(logTypes: seq<LogType>, resource: Resource, resolution: int): int
  {
    if logTypes == [] then 0
    else
      var last := logTypes[|logTypes| - 1];
      if last.resource == resource && last.resolution == resolution then SizeOf(last)
      else CapacityOf(logTypes[..|logTypes| - 1], resource, resolution)
  }

  predicate Listed(logTypes: seq<LogType>, resource: Resource, resolution: int)
  {
    exists k :: 0 <= k < |logTypes| && logTypes[k].resource == resource && logTypes[k].resolution == resolution
  }

  class ResourceSampler {
    const resource: Resource
    ghost const logTypes: seq<LogType>
    /** Capacity of the sample buffer: the largest resolution listed, at least 1. */
    const maxResolution: nat
    var samples: seq<real>
    /** The logs by resolution. */
    var logs: map<int, Log>
    ghost var history: seq<real>

    /** After n polls each log holds the last entries its capacity allows, out of floor(n / resolution). */
    ghost predicate LogTiles(resolution: int)
      requires resolution in logs
      reads this
    {
      var log := logs[resolution];
      && log.capacity == CapacityOf(logTypes, resource, resolution)
      && log.secondsSinceLastLog == |history| % Span(resolution)
      && log.buffer == Retained(Entries(history, resolution), log.capacity)
    }

    ghost predicate Valid()
      reads this
    {
      && samples == Retained(history, maxResolution)
      && (forall r :: r in logs <==> Listed(logTypes, resource, r))
      && (forall r :: r in logs ==> Span(r) <= maxResolution && LogTiles(r))
    }

    constructor (resource: Resource, logTypes: seq<LogType>)
      requires forall k :: 0 <= k < |logTypes| && logTypes[k].resource == resource ==> SizeOf(logTypes[k]) >= 0
      ensures Valid() && this.resource == resource && this.logTypes == logTypes && history == []
    {
      var most := MaxResolution(resource, logTypes);
      var buffers := LoggingBuffers(resource, logTypes);
      this.resource, this.logTypes, maxResolution := resource, logTypes, most;
      samples, logs, history := [], buffers.value, [];
      new;
      forall r | r in logs ensures LogTiles(r) {
        Triggers.DivModUnique(0, Span(r), 0, 0);
        assert Entries([], r) == [];
      }
    }

    /** One poll: the sample is stored, then every log looks whether its time has come. */
    method Poll(sample: real)
      requires Valid()
      modifies this
      ensures Valid() && history == old(history) + [sample] && logs.Keys == old(logs).Keys
    {
      PushRetains(history, maxResolution, sample);
      samples := PushBack(samples, maxResolution, sample);
      ghost var before := history;
      history := history + [sample];
      var todo := logs.Keys;
      while todo != {}
        invariant samples == old(PushBack(samples, maxResolution, sample)) && history == before + [sample]
        invariant logs.Keys == old(logs).Keys && todo <= logs.Keys
        invariant forall r :: r in logs ==> if r in todo then logs[r] == old(logs)[r] else LogTiles(r)
        decreases |todo|
      {
        var r := AnyOf(todo);
        UpdateLog(r, before, sample);
        todo := todo - {r};
      }
    }

    /** The loop body of processLogs. */
    method UpdateLog(r: int, ghost before: seq<real>, ghost sample: real)
      requires r in logs && Span(r) <= maxResolution && history == before + [sample]
      requires samples == Retained(history, maxResolution)
      requires logs[r].capacity == CapacityOf(logTypes, resource, r)
      requires logs[r].secondsSinceLastLog == |before| % Span(r)
      requires logs[r].buffer == Retained(Entries(before, r), logs[r].capacity)
      modifies this`logs
      ensures logs.Keys == old(logs).Keys && LogTiles(r)
      ensures forall q :: q in logs && q != r ==> logs[q] == old(logs)[q]
    {
      hide Entries, Entry, MeanOf, CapacityOf;
      var log := logs[r];
      log := log.(secondsSinceLastLog := log.secondsSinceLastLog + 1);
      Triggers.OneMore(|before|, Span(r));
      EntriesNext(before, sample, r);
      if log.secondsSinceLastLog >= r {
        MeanOfRetained(history, maxResolution, r);
        var mean := SamplesMean(samples, r);
        PushRetains(Entries(before, r), log.capacity, mean);
        log := log.(buffer := PushBack(log.buffer, log.capacity, mean), secondsSinceLastLog := 0);
      }
      logs := logs[r := log];
    }
  }

  /** What a reader of the logs finds: the closed form of every entry, from exactly its own samples. */
  lemma LogsHoldTheHistory(sampler: ResourceSampler, resolution: int, k: nat)
    requires sampler.Valid() && resolution in sampler.logs && resolution >= 1
    requires k < |sampler.logs[resolution].buffer|
    ensures var log, all := sampler.logs[resolution], Whole(|sampler.history|, resolution);
            && log.capacity == CapacityOf(sampler.logTypes, sampler.resource, resolution)
            && |log.buffer| == (if all <= log.capacity then all else log.capacity)
            && all - |log.buffer| + k < all
            && log.buffer[k] ==
               WeightedSum(Newest(Window(sampler.history, resolution, all - |log.buffer| + k), resolution),
                           resolution, resolution as real)
  {
    hide WeightedSum, Window, Newest, Whole, Entry, Entries, Retained, CapacityOf, MeanOf;
    assert sampler.LogTiles(resolution);
    LogContents(sampler.history, resolution, sampler.logs[resolution].capacity, k);
  }

  /** The next key of a map; in which order they come does not matter. */
  method AnyOf<T>(keys: set<T>) returns (key: T)
    requires keys != {}
    ensures key in keys
  {
    key :| key in keys;
  }

  /** initializeSamplesBuffers, for one resource. */
  method MaxResolution(resource: Resource, logTypes: seq<LogType>) returns (most: nat)
    ensures most >= 1
    ensures forall k :: 0 <= k < |logTypes| && logTypes[k].resource == resource ==> logTypes[k].resolution <= most
    ensures most == 1 || Listed(logTypes, resource, most)
  {
    most := 1;
    for i := 0 to |logTypes|
      invariant most >= 1 && (most == 1 || Listed(logTypes, resource, most))
      invariant forall k :: 0 <= k < i && logTypes[k].resource == resource ==> logTypes[k].resolution <= most
    {
      if logTypes[i].resource == resource && logTypes[i].resolution > most {
        most := logTypes[i].resolution;
      }
    }
  }

  /**
   * initializeLoggingBuffers, for one resource: later entries replace earlier ones of the same resolution. None stands
   * for the exception of an impossible capacity.
   */
  method LoggingBuffers(resource: Resource, logTypes: seq<LogType>) returns (built: Option<map<int, Log>>)
    ensures built.None? <==>
            exists k :: 0 <= k < |logTypes| && logTypes[k].resource == resource && SizeOf(logTypes[k]) < 0
    ensures built.Some? ==>
              var logs := built.value;
              && (forall r :: r in logs <==> Listed(logTypes, resource, r))
              && (forall r :: r in logs ==> logs[r] == Log([], logs[r].capacity, 0))
              && (forall r :: r in logs ==> logs[r].capacity == CapacityOf(logTypes, resource, r))
  {
    var logs: map<int, Log> := map[];
    for i := 0 to |logTypes|
      invariant forall k :: 0 <= k < i && logTypes[k].resource == resource ==> SizeOf(logTypes[k]) >= 0
      invariant forall r :: r in logs <==> Listed(logTypes[..i], resource, r)
      invariant forall r :: r in logs ==> logs[r] == Log([], logs[r].capacity, 0)
      invariant forall r :: r in logs ==> logs[r].capacity == CapacityOf(logTypes[..i], resource, r)
    {
      var logType := logTypes[i];
      ListedNext(logTypes, i, resource);
      var size := 1;
      if logType.resolution > 0 {
        size := Truncated(logType.duration, logType.resolution);
      }
      if logType.resource == resource {
        if size < 0 {
          return None;
        }
        logs := logs[logType.resolution := Log([], size, 0)];
      }
    }
    assert logTypes[..|logTypes|] == logTypes;
    return Some(logs);
  }

  lemma ListedNext(logTypes: seq<LogType>, i: nat, resource: Resource)
    requires i < |logTypes|
    ensures forall r :: Listed(logTypes[..i + 1], resource, r) <==>
              Listed(logTypes[..i], resource, r) || (logTypes[i].resource == resource && logTypes[i].resolution == r)
    ensures forall r :: CapacityOf(logTypes[..i + 1], resource, r) ==
              if logTypes[i].resource == resource && logTypes[i].resolution == r
              then SizeOf(logTypes[i]) else CapacityOf(logTypes[..i], resource, r)
  {
    var longer, shorter, last := logTypes[..i + 1], logTypes[..i], logTypes[i];
    assert longer == shorter + [last] && longer[..|longer| - 1] == shorter && longer[i] == last;
    forall r
      ensures Listed(longer, resource, r) <==>
                Listed(shorter, resource, r) || (last.resource == resource && last.resolution == r)
      ensures CapacityOf(longer, resource, r) ==
              if last.resource == resource && last.resolution == r
              then SizeOf(last) else CapacityOf(shorter, resource, r)
    {
      if Listed(shorter, resource, r) {
        var k :| 0 <= k < i && shorter[k].resource == resource && shorter[k].resolution == r;
        assert longer[k] == shorter[k];
      }
    }
  }
}
