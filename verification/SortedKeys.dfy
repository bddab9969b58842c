/** The order in which Go prints the keys of a map: byte-wise lexicographic. */
module SortedKeys {
  import opened Sequences

  predicate Below(s: string, t: string) {
    s == "" || (t != "" && (s[0] < t[0] || (s[0] == t[0] && Below(s[1..], t[1..]))))
  }

  lemma {:induction false} BelowTotal(s: string, t: string)
    ensures Below(s, t) || Below(t, s)
  {
    if s != "" && t != "" { BelowTotal(s[1..], t[1..]); }
  }

  lemma {:induction false} BelowTransitive(s: string, t: string, u: string)
    requires Below(s, t) && Below(t, u)
    ensures Below(s, u)
  {
    if s != "" && s[0] == t[0] && t[0] == u[0] { BelowTransitive(s[1..], t[1..], u[1..]); }
  }

  lemma {:induction false} BelowAntisymmetric(s: string, t: string)
    requires Below(s, t) && Below(t, s)
    ensures s == t
  {
    if s != "" && t != "" {
      BelowAntisymmetric(s[1..], t[1..]);
      assert [s[0]] + s[1..] == s && [t[0]] + t[1..] == t;
    }
  }

  ghost predicate Ascending(keys: seq<string>) {
    forall i, j :: 0 <= i < j < |keys| ==> Below(keys[i], keys[j]) && keys[i] != keys[j]
  }

  /** The smallest of some keys. */
  method Smallest(keys: set<string>) returns (m: string)
    requires keys != {}
    ensures m in keys && forall k :: k in keys ==> Below(m, k)
  {
    m :| m in keys;
    var left := keys - {m};
    BelowTotal(m, m);
    while left != {}
      invariant left <= keys && m in keys && m !in left
      invariant forall k :: k in keys && k !in left ==> Below(m, k)
    {
      var k :| k in left;
      BelowTotal(m, k);
      if !Below(m, k) {
        forall j | j in keys && j !in left ensures Below(k, j) { BelowTransitive(k, m, j); }
        BelowTotal(k, k);
        m := k;
      }
      left := left - {k};
    }
  }

  /** The keys of a map in ascending order. */
  method Sort(keys: set<string>) returns (sorted: seq<string>)
    ensures Ascending(sorted) && Elements(sorted) == keys
  {
    sorted := [];
    var left := keys;
    while left != {}
      invariant left <= keys && Elements(sorted) == keys - left && Ascending(sorted)
      invariant forall i, k :: 0 <= i < |sorted| && k in left ==> Below(sorted[i], k)
    {
      var m := Smallest(left);
      assert forall i :: 0 <= i < |sorted| ==> sorted[i] in Elements(sorted);
      ElementsOfAppend(sorted, m);
      sorted := sorted + [m];
      left := left - {m};
    }
  }

  lemma NoElements(s: seq<string>)
    ensures Elements(s) == {} <==> s == []
  {
    assert s != [] ==> s[0] in Elements(s);
  }

  lemma LeastOf(s: seq<string>, x: string)
    requires s != [] && Ascending(s)
    ensures x in Elements(s) ==> Below(s[0], x)
    ensures s[0] in Elements(s)
  {
    BelowTotal(s[0], s[0]);
  }

  lemma SameLeast(s: seq<string>, t: seq<string>)
    requires s != [] && t != [] && Ascending(s) && Ascending(t) && Elements(s) == Elements(t)
    ensures s[0] == t[0]
  {
    LeastOf(s, t[0]);
    LeastOf(t, s[0]);
    BelowAntisymmetric(s[0], t[0]);
  }

  lemma TailElements(s: seq<string>)
    requires s != [] && Ascending(s)
    ensures Ascending(s[1..]) && Elements(s[1..]) == Elements(s) - {s[0]}
  {
    forall k | k in Elements(s[1..]) ensures k in Elements(s) && k != s[0] {
      var i :| 0 <= i < |s| - 1 && s[1..][i] == k;
      assert s[i + 1] == k;
    }
    forall k | k in Elements(s) && k != s[0] ensures k in Elements(s[1..]) {
      var i :| 0 <= i < |s| && s[i] == k;
      assert s[1..][i - 1] == k;
    }
  }

  /** There is only one ascending listing, so the order of the map iteration cannot show. */
  lemma {:induction false} AscendingUnique(s: seq<string>, t: seq<string>)
    requires Ascending(s) && Ascending(t) && Elements(s) == Elements(t)
    ensures s == t
  {
    NoElements(s);
    NoElements(t);
    if s != [] {
      SameLeast(s, t);
      TailElements(s);
      TailElements(t);
      AscendingUnique(s[1..], t[1..]);
      assert [s[0]] + s[1..] == s && [t[0]] + t[1..] == t;
    }
  }

  /** The strings agree below k, and at k the first is smaller. */
  ghost predicate DifferAt(s: string, t: string, k: nat) {
    k < |s| && k < |t| && (forall j :: 0 <= j < k ==> s[j] == t[j]) && s[k] < t[k]
  }

  /** Lexicographic: a prefix, or smaller at the first difference. */
  lemma {:induction false} BelowMeans(s: string, t: string)
    ensures Below(s, t) <==> s <= t || exists k: nat :: DifferAt(s, t, k)
  {
    if s != "" && t != "" {
      BelowMeans(s[1..], t[1..]);
      if s[0] == t[0] {
        assert s == [s[0]] + s[1..] && t == [t[0]] + t[1..];
        assert s <= t <==> s[1..] <= t[1..];
        forall k: nat | DifferAt(s[1..], t[1..], k) ensures DifferAt(s, t, k + 1) {
          assert forall j :: 0 < j <= k ==> s[j] == s[1..][j - 1] && t[j] == t[1..][j - 1];
        }
        forall k: nat | DifferAt(s, t, k) ensures k > 0 && DifferAt(s[1..], t[1..], k - 1) {
        }
      } else {
        assert s[0] < t[0] ==> DifferAt(s, t, 0);
        assert forall k: nat :: DifferAt(s, t, k) ==> k == 0;
      }
    }
  }
}
