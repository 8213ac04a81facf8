/** The engagement badge of a month of activities: how many were sent, how
    many were opened, and a traffic-light level from the opened/sent ratio. */
module Engagement {
  import opened Wrappers
  import opened JsText
  import opened ClientTypes
  import Seqs

  datatype Level = Low | Medium | High

  datatype Summary = Summary(totalSent: nat, totalOpened: nat, level: Level)

  /** Position of a level on the scale Low < Medium < High. */
  function Rank(l: Level): nat {
    match l
    case Low => 0
    case Medium => 1
    case High => 2
  }

  predicate WasSent(a: ClientActivity) { TruthyOpt(a.sentDate) }
  predicate WasOpened(a: ClientActivity) { TruthyOpt(a.openedDate) }

  /** `totalOpened / totalSent`, or 0 when nothing was sent. */
  function Ratio(sent: nat, opens: nat): real {
    if sent > 0 then (opens as real) / (sent as real) else 0.0
  }

  /** Above 0.66 is High, above 0.33 Medium, anything else Low. */
  function Classify(ratio: real): Level {
    if ratio > 0.66 then High else if ratio > 0.33 then Medium else Low
  }

  /** Counts sent and opened activities independently and classifies the
      ratio between the two counts. */
  function CalculateEngagementLevel(acts: seq<ClientActivity>): (e: Summary)
    ensures e.totalSent == Seqs.Count(acts, WasSent) && e.totalOpened == Seqs.Count(acts, WasOpened)
    ensures e.totalSent <= |acts| && e.totalOpened <= |acts|
    ensures e.totalSent == 0 ==> e.level == Low
    ensures e.totalSent > 0 ==>
      && (e.level == High <==> 100 * e.totalOpened > 66 * e.totalSent)
      && (e.level == Medium <==> 33 * e.totalSent < 100 * e.totalOpened <= 66 * e.totalSent)
      && (e.level == Low <==> 100 * e.totalOpened <= 33 * e.totalSent)
  {
    var sent := |Seqs.Filter(acts, WasSent)|;
    var opens := |Seqs.Filter(acts, WasOpened)|;
    LevelByCounts(sent, opens);
    Summary(sent, opens, Classify(Ratio(sent, opens)))
  }

  /** The real-valued threshold test agrees with comparing the counts
      cross-multiplied by 100. */
  lemma LevelByCounts(sent: nat, opens: nat)
    ensures sent == 0 ==> Classify(Ratio(sent, opens)) == Low
    ensures sent > 0 ==>
      && (Classify(Ratio(sent, opens)) == High <==> 100 * opens > 66 * sent)
      && (Classify(Ratio(sent, opens)) == Medium <==> 33 * sent < 100 * opens <= 66 * sent)
      && (Classify(Ratio(sent, opens)) == Low <==> 100 * opens <= 33 * sent)
  {
    if sent > 0 {
      RatioAbove(sent, opens, 66);
      RatioAbove(sent, opens, 33);
    }
  }

  /** `opens / sent > num / 100` exactly when `100 * opens > num * sent`. */
  lemma RatioAbove(sent: nat, opens: nat, num: nat)
    requires sent > 0
    ensures Ratio(sent, opens) > (num as real) / 100.0 <==> 100 * opens > num * sent
  {
    var (s, o, n) := (sent as real, opens as real, num as real);
    var k := 100.0 * s;
    assert (o / s) * k == 100.0 * o;
    assert (n / 100.0) * k == n * s;
    ScaleComparison(o / s, n / 100.0, k);
    assert (100 * opens) as real == 100.0 * o;
    assert (num * sent) as real == n * s;
  }

  /** Multiplying both sides by a positive amount keeps a strict comparison. */
  lemma ScaleComparison(a: real, b: real, k: real)
    requires k > 0.0
    ensures a > b <==> a * k > b * k
  {
    if a > b {
      assert (a - b) * k > 0.0;
    } else {
      assert (b - a) * k >= 0.0;
    }
  }

  /** With the sent count fixed, more opens never lower the level. */
  lemma LevelMonotone(sent: nat, opens1: nat, opens2: nat)
    requires opens1 <= opens2
    ensures Rank(Classify(Ratio(sent, opens1))) <= Rank(Classify(Ratio(sent, opens2)))
  {
    LevelByCounts(sent, opens1);
    LevelByCounts(sent, opens2);
  }

  /** The opens count does not look at the sent date: an activity opens
      but never marked sent can push the ratio above 1, and the level to High. */
  lemma OpenedMayExceedSent()
    ensures var acts := [
        ClientActivity("a", "n", "f", "t", "m", "2024-01-01", None, Some("2024-01-02"), Some("2024-01-01")),
        ClientActivity("b", "n", "f", "t", "m", "2024-01-01", None, Some("2024-01-02"), None)];
      CalculateEngagementLevel(acts) == Summary(1, 2, High)
  {
    var acts := [
        ClientActivity("a", "n", "f", "t", "m", "2024-01-01", None, Some("2024-01-02"), Some("2024-01-01")),
        ClientActivity("b", "n", "f", "t", "m", "2024-01-01", None, Some("2024-01-02"), None)];
    assert Seqs.Filter(acts, WasSent) == [acts[0]];
    assert Seqs.Filter(acts, WasOpened) == acts;
  }

  /** A non-empty month in which every activity was sent and opened is
      High; one in which something was sent but nothing opened is Low. */
  lemma AllOrNothingOpened(acts: seq<ClientActivity>)
    ensures (|acts| > 0 && forall i :: 0 <= i < |acts| ==> WasSent(acts[i]) && WasOpened(acts[i]))
      ==> CalculateEngagementLevel(acts).level == High
    ensures (exists i :: 0 <= i < |acts| && WasSent(acts[i])) && (forall i :: 0 <= i < |acts| ==> !WasOpened(acts[i]))
      ==> CalculateEngagementLevel(acts).level == Low
  {
    Seqs.CountExtremes(acts, WasSent);
    Seqs.CountExtremes(acts, WasOpened);
  }

  /** `getTrafficColor`: one Bootstrap background class per level. */
  function TrafficColor(level: Level): (c: string)
    ensures c == "bg-success" <==> level == High
    ensures c == "bg-warning" <==> level == Medium
    ensures c == "bg-danger" <==> level == Low
  {
    match level
    case High => "bg-success"
    case Medium => "bg-warning"
    case Low => "bg-danger"
  }
}
