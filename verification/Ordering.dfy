// Texts in lexicographic order, and the one increasing sequence of a set of them.
module Ordering {
  // A string by its code points, or bytes.
  type Text = seq<int>

  function Elements(s: seq<Text>): set<Text>
  {
    set x | x in s
  }

  predicate Distinct(s: seq<Text>)
  {
    forall i, j :: 0 <= i < j < |s| ==> s[i] != s[j]
  }

  lemma ElementsSnoc(s: seq<Text>, x: Text)
    ensures Elements(s + [x]) == Elements(s) + {x}
  {
  }

  lemma NotSeen(s: seq<Text>, i: nat)
    requires Distinct(s) && i < |s|
    ensures s[i] !in Elements(s[..i]) && s[i] in Elements(s) && s[..i + 1] == s[..i] + [s[i]]
  {
  }

  lemma NoElements()
    ensures Elements([]) == {}
  {
  }

  predicate Less(a: Text, b: Text)
  {
    |b| > 0 && (|a| == 0 || a[0] < b[0] || (a[0] == b[0] && Less(a[1..], b[1..])))
  }

  lemma {:induction false} LessIsTotal(a: Text, b: Text)
    ensures (Less(a, b) && !Less(b, a) && a != b) || (Less(b, a) && !Less(a, b) && a != b)
         || (!Less(a, b) && !Less(b, a) && a == b)
  {
    if |a| > 0 && |b| > 0 && a[0] == b[0] {
      LessIsTotal(a[1..], b[1..]);
      assert a == [a[0]] + a[1..] && b == [b[0]] + b[1..];
    }
  }

  // The order is that of the first difference, where a text that has ended comes first.
  lemma {:induction false} LessIsLexicographic(a: Text, b: Text)
    ensures Less(a, b) <==> exists k: nat :: FirstDifference(a, b, k)
  {
    if |a| > 0 && |b| > 0 && a[0] == b[0] {
      LessIsLexicographic(a[1..], b[1..]);
      if k: nat :| FirstDifference(a[1..], b[1..], k) {
        assert forall i :: 0 < i <= k ==> a[i] == a[1..][i - 1] && b[i] == b[1..][i - 1];
        assert FirstDifference(a, b, k + 1);
      }
      if k: nat :| FirstDifference(a, b, k) {
        assert k > 0;
        assert FirstDifference(a[1..], b[1..], k - 1);
      }
    } else if |b| > 0 && (|a| == 0 || a[0] < b[0]) {
      assert FirstDifference(a, b, 0);
    }
  }

  predicate FirstDifference(a: Text, b: Text, k: nat)
  {
    k < |b| && k <= |a| && a[..k] == b[..k] && (k == |a| || a[k] < b[k])
  }

  lemma {:induction false} LessIsTransitive(a: Text, b: Text, c: Text)
    requires Less(a, b) && Less(b, c)
    ensures Less(a, c)
  {
    if |a| > 0 && a[0] == b[0] == c[0] {
      LessIsTransitive(a[1..], b[1..], c[1..]);
    }
  }

  predicate Increasing(s: seq<Text>)
  {
    forall i, j :: 0 <= i < j < |s| ==> Less(s[i], s[j])
  }

  function Insert(x: Text, s: seq<Text>): (r: seq<Text>)
  {
    if |s| == 0 || Less(x, s[0]) then [x] + s else [s[0]] + Insert(x, s[1..])
  }

  lemma {:induction false} InsertIncreasing(x: Text, s: seq<Text>)
    requires Increasing(s) && x !in s
    ensures Increasing(Insert(x, s))
    ensures Elements(Insert(x, s)) == Elements(s) + {x} && |Insert(x, s)| == |s| + 1
  {
    hide Less;
    var r := Insert(x, s);
    if |s| == 0 {
    } else if Less(x, s[0]) {
      forall i | 0 <= i < |s| ensures Less(x, s[i]) {
        if i > 0 { LessIsTransitive(x, s[0], s[i]); }
      }
    } else {
      InsertIncreasing(x, s[1..]);
      LessIsTotal(x, s[0]);
      var t := Insert(x, s[1..]);
      assert r == [s[0]] + t;
      assert s == [s[0]] + s[1..];
      forall i | 0 <= i < |t| ensures Less(s[0], t[i]) {
        assert t[i] in Elements(t);
      }
      assert Elements(r) == Elements(t) + {s[0]};
      assert Elements(s) == Elements(s[1..]) + {s[0]};
    }
  }

  // Sorting a list, as Python's sorted.
  function Sorted(s: seq<Text>): (r: seq<Text>)
  {
    if |s| == 0 then [] else Insert(s[0], Sorted(s[1..]))
  }

  lemma {:induction false} SortedIncreasing(s: seq<Text>)
    requires Distinct(s)
    ensures Increasing(Sorted(s)) && Elements(Sorted(s)) == Elements(s) && |Sorted(s)| == |s|
  {
    if |s| > 0 {
      SortedIncreasing(s[1..]);
      assert s == [s[0]] + s[1..];
      assert Elements(s) == Elements(s[1..]) + {s[0]};
      assert s[0] !in Elements(Sorted(s[1..]));
      InsertIncreasing(s[0], Sorted(s[1..]));
    }
  }

  // A set has only one increasing sequence, so the order its elements came in leaves no trace.
  lemma {:induction false} IncreasingUnique(s: seq<Text>, t: seq<Text>)
    requires Increasing(s) && Increasing(t) && Elements(s) == Elements(t)
    ensures s == t
  {
    hide Less;
    if |s| == 0 {
      SomeElement(t);
    } else {
      assert s[0] in Elements(s);
      assert |t| > 0 && t[0] in Elements(t);
      FirstIsLeast(s, t[0]);
      FirstIsLeast(t, s[0]);
      LessIsTotal(s[0], t[0]);
      assert Elements(s[1..]) == Elements(s) - {s[0]} by { TailElements(s); }
      assert Elements(t[1..]) == Elements(t) - {t[0]} by { TailElements(t); }
      IncreasingUnique(s[1..], t[1..]);
      assert s == [s[0]] + s[1..] && t == [t[0]] + t[1..];
    }
  }

  lemma SomeElement(s: seq<Text>)
    ensures |s| > 0 ==> Elements(s) != {}
  {
    if |s| > 0 { assert s[0] in Elements(s); }
  }

  lemma FirstIsLeast(s: seq<Text>, x: Text)
    requires Increasing(s) && x in s
    ensures |s| > 0 && !Less(x, s[0])
  {
    LessIsTotal(x, s[0]);
  }

  lemma TailElements(s: seq<Text>)
    requires |s| > 0 && Increasing(s)
    ensures Elements(s[1..]) == Elements(s) - {s[0]}
  {
    hide Less;
    LessIsTotal(s[0], s[0]);
    forall x | x in s[1..] ensures x != s[0] && x in s {
      var i :| 0 < i < |s| && s[i] == x;
      assert Less(s[0], s[i]);
    }
    forall x | x in s && x != s[0] ensures x in s[1..] {
      var i :| 0 <= i < |s| && s[i] == x;
      assert s[1..][i - 1] == x;
    }
  }

  ghost function InOrder(s: set<Text>): (r: seq<Text>)
    ensures Increasing(r) && Elements(r) == s && |r| == |s|
    decreases |s|
  {
    if s == {} then []
    else
      var x :| x in s;
      var r := InOrder(s - {x});
      assert x !in Elements(r);
      InsertIncreasing(x, r);
      Insert(x, r)
  }

  lemma SortedIsInOrder(s: seq<Text>)
    requires Distinct(s)
    ensures Sorted(s) == InOrder(Elements(s))
  {
    SortedIncreasing(s);
    IncreasingUnique(Sorted(s), InOrder(Elements(s)));
  }

  // Distinct elements of a set are no more than its size, and as many only if they are all of it.
  lemma {:induction false} DistinctCount(s: seq<Text>, all: set<Text>)
    requires Distinct(s) && Elements(s) <= all
    ensures |s| == |Elements(s)| <= |all| && (|s| == |all| ==> Elements(s) == all)
  {
    if |s| == 0 {
      if |all| == 0 { assert all == {}; }
    } else {
      var t := s[..|s| - 1];
      var last := s[|s| - 1];
      assert s == t + [last];
      assert Elements(s) == Elements(t) + {last};
      assert last !in Elements(t);
      DistinctCount(t, all - {last});
    }
  }
}
