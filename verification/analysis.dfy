/** The bank health score of `src/analysis.py`. */
module Analysis {
  import opened Records

  /** Thresholds by ratio name, as in the configuration's `health_thresholds`. */
  type Thresholds = map<string, real>

  /** The score indexes both keys directly, so both must be present. */
  predicate HasThresholds(t: Thresholds) {
    "ROA" in t && "NPL" in t
  }

  /** Return on assets passes when it reaches its threshold. */
  predicate PassesRoa(f: Features, t: Thresholds)
    requires HasThresholds(t)
  {
    f.roa >= t["ROA"]
  }

  /** The non-performing-loan ratio passes when it does not exceed its threshold. */
  predicate PassesNpl(f: Features, t: Thresholds)
    requires HasThresholds(t)
  {
    f.npl <= t["NPL"]
  }

  /** The names of the checks a bank passes. */
  function PassedChecks(f: Features, t: Thresholds): set<string>
    requires HasThresholds(t)
  {
    (if PassesRoa(f, t) then {"ROA"} else {}) + (if PassesNpl(f, t) then {"NPL"} else {})
  }

  /** `calculate_health_score`: starts at 0 and adds one per passed check. */
  function HealthScore(f: Features, t: Thresholds): (score: nat)
    requires HasThresholds(t)
    ensures score <= 2
    ensures score == |PassedChecks(f, t)|
    ensures score == 2 <==> PassesRoa(f, t) && PassesNpl(f, t)
    ensures score == 0 <==> !PassesRoa(f, t) && !PassesNpl(f, t)
  {
    var s0 := 0;
    var s1 := if f.roa >= t["ROA"] then s0 + 1 else s0;
    var s2 := if f.npl <= t["NPL"] then s1 + 1 else s1;
    s2
  }

  /** A ratio exactly at its threshold scores. */
  lemma BoundaryScores(f: Features, t: Thresholds)
    requires HasThresholds(t)
    ensures f.roa == t["ROA"] ==> PassesRoa(f, t)
    ensures f.npl == t["NPL"] ==> PassesNpl(f, t)
    ensures f.roa == t["ROA"] && f.npl == t["NPL"] ==> HealthScore(f, t) == 2
  {
  }

  /** Raising ROA or lowering NPL, all else fixed, never lowers the score. */
  lemma HealthScoreMonotone(f: Features, g: Features, t: Thresholds)
    requires HasThresholds(t)
    requires g.roa >= f.roa && g.npl <= f.npl
    ensures HealthScore(g, t) >= HealthScore(f, t)
  {
  }

  /** Only ROA, NPL and their two thresholds matter: ROE, NIM, the price and
      any other threshold entry do not. */
  lemma HealthScoreDependsOnlyOnRoaNpl(f: Features, g: Features, t: Thresholds, u: Thresholds)
    requires HasThresholds(t) && HasThresholds(u)
    requires f.roa == g.roa && f.npl == g.npl
    requires t["ROA"] == u["ROA"] && t["NPL"] == u["NPL"]
    ensures HealthScore(f, t) == HealthScore(g, u)
  {
  }
}
