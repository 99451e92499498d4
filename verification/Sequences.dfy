module Sequences {

  ghost predicate Distinct(s: seq<int>) { forall i, j | 0 <= i < j < |s| :: s[i] != s[j] }

  lemma DistinctJoin(s: seq<int>, t: seq<int>)
    ensures Distinct(s + t) <==> Distinct(s) && Distinct(t) && forall f | f in s :: f !in t
  {
    var u := s + t;
    if Distinct(u) {
      forall i, j | 0 <= i < j < |s| ensures s[i] != s[j] { assert s[i] == u[i] && s[j] == u[j]; }
      forall i, j | 0 <= i < j < |t| ensures t[i] != t[j] { assert t[i] == u[|s| + i] && t[j] == u[|s| + j]; }
      forall i, j | 0 <= i < |s| && 0 <= j < |t| ensures s[i] != t[j] { assert s[i] == u[i] && t[j] == u[|s| + j]; }
    }
    if Distinct(s) && Distinct(t) && forall f | f in s :: f !in t {
      forall i, j | 0 <= i < j < |u| ensures u[i] != u[j] {
        if i < |s| <= j { assert s[i] in s && t[j - |s|] in t; }
      }
    }
  }

  ghost predicate Ascending(s: seq<int>) { forall i, j | 0 <= i < j < |s| :: s[i] < s[j] }

  lemma AscendingJoin(s: seq<int>, t: seq<int>)
    requires Ascending(s) && Ascending(t) && forall f, g | f in s && g in t :: f < g
    ensures Ascending(s + t)
  {
    forall i, j | 0 <= i < j < |s + t| ensures (s + t)[i] < (s + t)[j] {
      if i < |s| <= j { assert s[i] in s && t[j - |s|] in t; }
    }
  }
}
