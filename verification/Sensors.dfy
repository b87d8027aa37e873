/**
 Temperature sensors: `OSInfo.AddOSInfo` (health.go) adds the readings of a node, `OSMetrics.Merge`
 (metrics.go) combines nodes.  Together they aggregate readings: any history of the two gives, per
 sensor key, the exact summary of all readings it saw.
 */
module Sensors {
  import opened Folds

  datatype Reading = Reading(key: string, temperature: real, critical: real)

  datatype SensorMetrics = SensorMetrics(
    minTemp: real, maxTemp: real, totalTemp: real, count: int, exceedsCritical: int)

  const NO_READINGS: SensorMetrics := SensorMetrics(0.0, 0.0, 0.0, 0, 0)

  predicate Exceeds(r: Reading) { r.critical > 0.0 && r.temperature > r.critical }

  function Min(x: real, y: real): real { if y < x then y else x }
  function Max(x: real, y: real): real { if y > x then y else x }

  /** What a node's summary is joined with another: the first data are taken as they are. */
  function Joined(a: SensorMetrics, b: SensorMetrics): SensorMetrics {
    SensorMetrics(
      if a.count == 0 then b.minTemp else Min(a.minTemp, b.minTemp),
      if a.count == 0 then b.maxTemp else Max(a.maxTemp, b.maxTemp),
      a.totalTemp + b.totalTemp, a.count + b.count, a.exceedsCritical + b.exceedsCritical)
  }

  /** Counts add up; least and greatest temperature are those of both, or of the second if the first has none. */
  lemma JoinedFields(a: SensorMetrics, b: SensorMetrics)
    ensures var r := Joined(a, b);
            && r.count == a.count + b.count && r.totalTemp == a.totalTemp + b.totalTemp
            && r.exceedsCritical == a.exceedsCritical + b.exceedsCritical
            && (a.count == 0 ==> r.minTemp == b.minTemp && r.maxTemp == b.maxTemp)
            && (a.count != 0 ==>
                  && r.minTemp <= a.minTemp && r.minTemp <= b.minTemp && r.minTemp in [a.minTemp, b.minTemp]
                  && r.maxTemp >= a.maxTemp && r.maxTemp >= b.maxTemp && r.maxTemp in [a.maxTemp, b.maxTemp])
  {
  }

  /** One reading as a summary. */
  function Single(r: Reading): SensorMetrics {
    SensorMetrics(r.temperature, r.temperature, r.temperature, 1, if Exceeds(r) then 1 else 0)
  }

  type Sensors = map<string, SensorMetrics>

  function Get(m: Sensors, key: string): SensorMetrics { if key in m then m[key] else NO_READINGS }

  function Absorb(m: Sensors, readings: seq<Reading>): Sensors {
    if readings == [] then m
    else
      var n := |readings| - 1;
      var before := Absorb(m, readings[..n]);
      before[readings[n].key := Joined(Get(before, readings[n].key), Single(readings[n]))]
  }

  function Combine(m: Sensors, other: Sensors): Sensors {
    map k | k in m.Keys + other.Keys :: if k in other then Joined(Get(m, k), other[k]) else m[k]
  }

  class OSMetrics {
    var sensors: Sensors

    constructor ()
      ensures sensors == map[]
    {
      sensors := map[];
    }

    /** `OSInfo.AddOSInfo`, with this as its target. */
    method AddOSInfo(readings: seq<Reading>)
      modifies this
      ensures sensors == Absorb(old(sensors), readings)
    {
      for i := 0 to |readings|
        invariant sensors == Absorb(old(sensors), readings[..i])
      {
        var sensor := readings[i];
        var existing := Get(sensors, sensor.key);
        if existing.count == 0 {
          existing := existing.(minTemp := sensor.temperature, maxTemp := sensor.temperature);
        } else {
          if sensor.temperature < existing.minTemp {
            existing := existing.(minTemp := sensor.temperature);
          }
          if sensor.temperature > existing.maxTemp {
            existing := existing.(maxTemp := sensor.temperature);
          }
        }
        existing := existing.(totalTemp := existing.totalTemp + sensor.temperature, count := existing.count + 1);
        if sensor.critical > 0.0 && sensor.temperature > sensor.critical {
          existing := existing.(exceedsCritical := existing.exceedsCritical + 1);
        }
        assert readings[..i + 1][..i] == readings[..i];
        sensors := sensors[sensor.key := existing];
      }
      assert readings[..|readings|] == readings;
    }

    method Merge(other: OSMetrics?)
      modifies this
      ensures other == null ==> sensors == old(sensors)
      ensures other != null ==> sensors == Combine(old(sensors), old(other.sensors))
    {
      if other == null {
        return;
      }
      ghost var before := sensors;
      var theirs := other.sensors;
      var todo := theirs.Keys;
      while todo != {}
        invariant todo <= theirs.Keys
        invariant sensors.Keys == before.Keys + (theirs.Keys - todo)
        invariant forall k :: k in sensors ==>
          (sensors[k] == if k in todo || k !in theirs then before[k] else Joined(Get(before, k), theirs[k]))
      {
        var key :| key in todo;
        var otherSensor := theirs[key];
        var existing := Get(sensors, key);
        if existing.count == 0 {
          existing := existing.(minTemp := otherSensor.minTemp, maxTemp := otherSensor.maxTemp);
        } else {
          if otherSensor.minTemp < existing.minTemp {
            existing := existing.(minTemp := otherSensor.minTemp);
          }
          if otherSensor.maxTemp > existing.maxTemp {
            existing := existing.(maxTemp := otherSensor.maxTemp);
          }
        }
        existing := existing.(
          totalTemp := existing.totalTemp + otherSensor.totalTemp,
          count := existing.count + otherSensor.count,
          exceedsCritical := existing.exceedsCritical + otherSensor.exceedsCritical);
        sensors := sensors[key := existing];
        todo := todo - {key};
      }
    }
  }

  // ----- Histories and what they aggregate

  /** How an OSMetrics came about: from the zero value, by adding readings and merging others. */
  datatype History = Zero | Add(to: History, readings: seq<Reading>) | Merge(into: History, other: History) {
    function Eval(): Sensors {
      match this
      case Zero => map[]
      case Add(h, readings) => Absorb(h.Eval(), readings)
      case Merge(h, o) => Combine(h.Eval(), o.Eval())
    }

    function Readings(): seq<Reading> {
      match this
      case Zero => []
      case Add(h, readings) => h.Readings() + readings
      case Merge(h, o) => h.Readings() + o.Readings()
    }
  }

  /** The readings of one sensor. */
  function Of(rs: seq<Reading>, key: string): seq<Reading> {
    if rs == [] then []
    else
      var n := |rs| - 1;
      Of(rs[..n], key) + if rs[n].key == key then [rs[n]] else []
  }

  /** The temperatures and the critical readings, as they add up. */
  datatype Heat = Heat(total: real, critical: int)

  function Heats(): Measure<Reading, Heat> {
    Measure(_ => true,
            (r: Reading) => Heat(r.temperature, if r.critical > 0.0 && r.temperature > r.critical then 1 else 0),
            Heat(0.0, 0), (x: Heat, y: Heat) => Heat(x.total + y.total, x.critical + y.critical))
  }

  lemma HeatsAddUp()
    ensures CommutativeMonoid(Heats().zero, Heats().plus)
  {
  }

  /** s is the exact summary of the readings rs. */
  ghost predicate Exact(s: SensorMetrics, rs: seq<Reading>) {
    && s.count == |rs| > 0 && Heat(s.totalTemp, s.exceedsCritical) == Sum(Heats(), rs)
    && (forall r <- rs :: s.minTemp <= r.temperature <= s.maxTemp)
    && (exists r <- rs :: r.temperature == s.minTemp)
    && (exists r <- rs :: r.temperature == s.maxTemp)
  }

  /** The sensor is stored exactly if it has readings, with their exact summary. */
  ghost predicate Summarizes(m: Sensors, rs: seq<Reading>, key: string) {
    if key in m then Exact(m[key], Of(rs, key)) else Of(rs, key) == []
  }

  lemma {:induction false} OfAppend(xs: seq<Reading>, ys: seq<Reading>, key: string)
    ensures Of(xs + ys, key) == Of(xs, key) + Of(ys, key)
  {
    if ys == [] {
      assert xs + ys == xs;
    } else {
      var n := |ys| - 1;
      assert (xs + ys)[..|xs| + n] == xs + ys[..n];
      OfAppend(xs, ys[..n], key);
    }
  }

  lemma ExactSingle(r: Reading)
    ensures Exact(Single(r), [r])
  {
    assert r in [r] && [r][1..] == [];
  }

  lemma ExactJoined(a: SensorMetrics, xs: seq<Reading>, b: SensorMetrics, ys: seq<Reading>)
    requires (xs == [] && a == NO_READINGS) || Exact(a, xs)
    requires Exact(b, ys)
    ensures Exact(Joined(a, b), xs + ys)
  {
    HeatsAddUp();
    SumAppend(Heats(), xs, ys);
    var lo :| lo in ys && lo.temperature == b.minTemp;
    var hi :| hi in ys && hi.temperature == b.maxTemp;
    assert lo in xs + ys && hi in xs + ys;
    if xs != [] {
      var lo' :| lo' in xs && lo'.temperature == a.minTemp;
      var hi' :| hi' in xs && hi'.temperature == a.maxTemp;
      assert lo' in xs + ys && hi' in xs + ys;
    }
  }

  lemma {:induction false} AbsorbSummarizes(m: Sensors, rs: seq<Reading>, more: seq<Reading>, key: string)
    requires Summarizes(m, rs, key)
    ensures Summarizes(Absorb(m, more), rs + more, key)
    decreases |more|
  {
    if more == [] {
      assert rs + more == rs;
    } else {
      var n := |more| - 1;
      var before, r := Absorb(m, more[..n]), more[n];
      AbsorbSummarizes(m, rs, more[..n], key);
      assert (rs + more)[..|rs| + n] == rs + more[..n];
      if r.key == key {
        ExactSingle(r);
        ExactJoined(Get(before, key), Of(rs + more[..n], key), Single(r), [r]);
      } else {
        assert Of(rs + more[..n], key) + [] == Of(rs + more[..n], key);
      }
    }
  }

  lemma CombineSummarizes(m: Sensors, rs: seq<Reading>, other: Sensors, more: seq<Reading>, key: string)
    requires Summarizes(m, rs, key) && Summarizes(other, more, key)
    ensures Summarizes(Combine(m, other), rs + more, key)
  {
    OfAppend(rs, more, key);
    if key in other {
      ExactJoined(Get(m, key), Of(rs, key), other[key], Of(more, key));
    } else {
      assert Of(rs, key) + Of(more, key) == Of(rs, key);
    }
  }

  /** Any tree of additions and merges gives, sensor by sensor, the exact summary of all readings together. */
  lemma {:induction false} HistorySummarizes(h: History, key: string)
    ensures Summarizes(h.Eval(), h.Readings(), key)
  {
    match h
    case Zero =>
    case Add(g, readings) =>
      HistorySummarizes(g, key);
      AbsorbSummarizes(g.Eval(), g.Readings(), readings, key);
    case Merge(g, o) =>
      HistorySummarizes(g, key);
      HistorySummarizes(o, key);
      CombineSummarizes(g.Eval(), g.Readings(), o.Eval(), o.Readings(), key);
  }

  /** Two histories of the same readings, in whatever order and shape, leave the same metrics. */
  lemma {:induction false} HistoryOrderIrrelevant(g: History, h: History)
    requires multiset(g.Readings()) == multiset(h.Readings())
    ensures g.Eval() == h.Eval()
  {
    forall key ensures key in g.Eval() <==> key in h.Eval()
               ensures key in g.Eval() && key in h.Eval() ==> g.Eval()[key] == h.Eval()[key] {
      HistorySummarizes(g, key);
      HistorySummarizes(h, key);
      SameOf(g.Readings(), h.Readings(), key);
      if key in g.Eval() && key in h.Eval() {
        ExactUnique(g.Eval()[key], Of(g.Readings(), key), h.Eval()[key], Of(h.Readings(), key));
      }
    }
  }

  lemma {:induction false} SameOf(xs: seq<Reading>, ys: seq<Reading>, key: string)
    requires multiset(xs) == multiset(ys)
    ensures multiset(Of(xs, key)) == multiset(Of(ys, key)) && |Of(xs, key)| == |Of(ys, key)|
  {
    OfMultiset(xs, key);
    OfMultiset(ys, key);
    assert |Of(xs, key)| == |multiset(Of(xs, key))| && |Of(ys, key)| == |multiset(Of(ys, key))|;
  }

  lemma {:induction false} OfMultiset(rs: seq<Reading>, key: string)
    ensures forall r :: multiset(Of(rs, key))[r] == if r.key == key then multiset(rs)[r] else 0
  {
    if rs != [] {
      var n := |rs| - 1;
      assert rs == rs[..n] + [rs[n]];
      OfMultiset(rs[..n], key);
    }
  }

  lemma ExactUnique(s: SensorMetrics, xs: seq<Reading>, t: SensorMetrics, ys: seq<Reading>)
    requires Exact(s, xs) && Exact(t, ys) && multiset(xs) == multiset(ys) && |xs| == |ys|
    ensures s == t
  {
    forall r ensures r in xs <==> r in ys {
      assert r in multiset(xs) <==> r in multiset(ys);
    }
    HeatsAddUp();
    SumPermutation(Heats(), xs, ys);
  }

  /** The readings above their critical temperature, of sensors that have one. */
  function Critical(rs: seq<Reading>): seq<Reading> {
    if rs == [] then []
    else (if rs[0].critical > 0.0 && rs[0].temperature > rs[0].critical then [rs[0]] else []) + Critical(rs[1..])
  }

  function Total(rs: seq<Reading>): real { if rs == [] then 0.0 else rs[0].temperature + Total(rs[1..]) }

  lemma {:induction false} HeatsAre(rs: seq<Reading>)
    ensures Sum(Heats(), rs) == Heat(Total(rs), |Critical(rs)|)
  {
    if rs != [] {
      HeatsAre(rs[1..]);
    }
  }

  /** Number, total and critical readings of a sensor, over all that any tree of additions and merges saw. */
  lemma {:induction false} HistoryCounts(h: History, key: string)
    requires key in h.Eval()
    ensures var s, rs := h.Eval()[key], Of(h.Readings(), key);
            s.count == |rs| && s.totalTemp == Total(rs) && s.exceedsCritical == |Critical(rs)|
  {
    HistorySummarizes(h, key);
    HeatsAre(Of(h.Readings(), key));
  }
}
