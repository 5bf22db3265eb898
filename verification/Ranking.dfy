/** The total order by which the stores choose what to evict: a number first, then the key. */
module Ranking {

  /** `str::cmp`: lexicographic by scalar value, which is the order of the UTF-8 bytes. */
  predicate LexLe(a: string, b: string) {
    a == [] || (b != [] && (a[0] < b[0] || (a[0] == b[0] && LexLe(a[1..], b[1..]))))
  }

  /** A prefix comes first; otherwise the first difference decides. */
  lemma {:induction false} LexIff(a: string, b: string)
    ensures LexLe(a, b) <==>
            a <= b || exists i :: 0 <= i < |a| && i < |b| && a[..i] == b[..i] && a[i] < b[i]
  {
    if a != [] && b != [] {
      if a[0] == b[0] {
        LexIff(a[1..], b[1..]);
        SameHead(a, b);
      } else {
        assert a[0] < b[0] ==> a[..0] == b[..0];
      }
    }
  }

  lemma SameHead(a: string, b: string)
    requires a != [] && b != [] && a[0] == b[0]
    ensures a <= b <==> a[1..] <= b[1..]
    ensures (exists i :: 0 <= i < |a| && i < |b| && a[..i] == b[..i] && a[i] < b[i]) <==>
            (exists i :: 0 <= i < |a[1..]| && i < |b[1..]| && a[1..][..i] == b[1..][..i] && a[1..][i] < b[1..][i])
  {
    var c, d := a[1..], b[1..];
    assert a == [a[0]] + c && b == [b[0]] + d;
    forall i | 1 <= i < |a| && i < |b| ensures a[..i] == b[..i] <==> c[..i - 1] == d[..i - 1] {
      assert a[..i] == [a[0]] + c[..i - 1] && b[..i] == [b[0]] + d[..i - 1];
    }
    if i :| 0 <= i < |a| && i < |b| && a[..i] == b[..i] && a[i] < b[i] {
      assert c[..i - 1] == d[..i - 1] && c[i - 1] < d[i - 1];
    }
    if i :| 0 <= i < |c| && i < |d| && c[..i] == d[..i] && c[i] < d[i] {
      assert a[..i + 1] == b[..i + 1] && a[i + 1] < b[i + 1];
    }
  }

  lemma LexTotal(a: string, b: string)
    ensures LexLe(a, b) || LexLe(b, a)
  {
  }

  lemma {:induction false} LexAntisymmetric(a: string, b: string)
    requires LexLe(a, b) && LexLe(b, a)
    ensures a == b
  {
    if a != [] {
      LexAntisymmetric(a[1..], b[1..]);
      assert a == [a[0]] + a[1..] && b == [b[0]] + b[1..];
    }
  }

  lemma {:induction false} LexTransitive(a: string, b: string, c: string)
    requires LexLe(a, b) && LexLe(b, c)
    ensures LexLe(a, c)
  {
    if a != [] && a[0] == b[0] && b[0] == c[0] {
      LexTransitive(a[1..], b[1..], c[1..]);
    }
  }

  predicate Before(rank: map<string, int>, a: string, b: string)
    requires a in rank && b in rank
  {
    rank[a] < rank[b] || (rank[a] == rank[b] && LexLe(a, b))
  }

  lemma BeforeTransitive(rank: map<string, int>, a: string, b: string, c: string)
    requires a in rank && b in rank && c in rank && Before(rank, a, b) && Before(rank, b, c)
    ensures Before(rank, a, c)
  {
    if rank[a] == rank[b] && rank[b] == rank[c] {
      LexTransitive(a, b, c);
    }
  }

  ghost predicate IsFirst(rank: map<string, int>, k: string) {
    k in rank && forall j :: j in rank ==> Before(rank, k, j)
  }

  lemma FirstUnique(rank: map<string, int>, a: string, b: string)
    requires IsFirst(rank, a) && IsFirst(rank, b)
    ensures a == b
  {
    LexAntisymmetric(a, b);
  }

  lemma LexReflexive(a: string)
    ensures LexLe(a, a)
  {
  }

  /** One step of a minimum search: the better of the two is before both. */
  lemma BetterOf(rank: map<string, int>, done: set<string>, k: string, j: string)
    requires done <= rank.Keys && k in rank && j in rank
    requires forall i :: i in done ==> Before(rank, k, i)
    ensures var m := if Before(rank, j, k) then j else k;
            forall i :: i in done + {j} ==> Before(rank, m, i)
  {
    LexTotal(j, k);
    LexReflexive(j);
    if Before(rank, j, k) {
      forall i | i in done ensures Before(rank, j, i) {
        BeforeTransitive(rank, j, k, i);
      }
    }
  }

  lemma {:induction false} FirstAmong(rank: map<string, int>, keys: set<string>) returns (k: string)
    requires keys != {} && keys <= rank.Keys
    ensures k in keys && forall j :: j in keys ==> Before(rank, k, j)
    decreases |keys|
  {
    var j :| j in keys;
    var rest := keys - {j};
    if rest == {} {
      k := j;
      LexReflexive(j);
      assert keys == {j};
    } else {
      k := FirstAmong(rank, rest);
      BetterOf(rank, rest, k, j);
      k := if Before(rank, j, k) then j else k;
      assert keys == rest + {j};
    }
  }

  /** The key every other key comes after. */
  ghost function First(rank: map<string, int>): (k: string)
    requires rank != map[]
    ensures IsFirst(rank, k)
  {
    assert exists k :: IsFirst(rank, k) by {
      assert rank.Keys != {} by {
        var x :| x in rank;
        assert x in rank.Keys;
      }
      var k := FirstAmong(rank, rank.Keys);
      assert IsFirst(rank, k);
    }
    var k :| IsFirst(rank, k);
    k
  }

  /** `iter().min_by(..)`: the iteration order does not show in the answer. */
  method FindFirst(rank: map<string, int>) returns (k: string)
    requires rank != map[]
    ensures k == First(rank)
  {
    var todo := rank.Keys;
    assert exists x :: x in rank;
    k :| k in todo;
    todo := todo - {k};
    LexReflexive(k);
    while todo != {}
      invariant todo <= rank.Keys && k in rank
      invariant forall j :: j in rank.Keys - todo ==> Before(rank, k, j)
      decreases todo
    {
      var j :| j in todo;
      ghost var done := rank.Keys - todo;
      BetterOf(rank, done, k, j);
      if Before(rank, j, k) {
        k := j;
      }
      todo := todo - {j};
      assert rank.Keys - todo == done + {j};
    }
    FirstUnique(rank, k, First(rank));
  }

  /** A subset is no larger: what the maps' sizes are compared by. */
  lemma {:induction false} Fewer(a: set<string>, b: set<string>)
    requires a <= b
    ensures |a| <= |b|
    decreases |a|
  {
    if a != {} {
      var x :| x in a;
      Fewer(a - {x}, b - {x});
    }
  }
}
