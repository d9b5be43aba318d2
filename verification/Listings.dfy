/** Sorted duplicate-free lists of strings, the form in which SELECT DISTINCT ... ORDER BY answers. */
module Listings {

  /** Lexicographic order by character code. */
  predicate Less(a: string, b: string) {
    if b == "" then false
    else if a == "" then true
    else a[0] < b[0] || (a[0] == b[0] && Less(a[1..], b[1..]))
  }

  lemma {:induction false} LessIsTransitive(a: string, b: string, c: string)
    requires Less(a, b) && Less(b, c)
    ensures Less(a, c)
  {
    if a != "" && a[0] == b[0] == c[0] {
      LessIsTransitive(a[1..], b[1..], c[1..]);
    }
  }

  /** Of two strings exactly one comes first, unless they are the same. */
  lemma {:induction false} LessIsTotal(a: string, b: string)
    ensures Less(a, b) <==> a != b && !Less(b, a)
  {
    if a != "" && b != "" {
      LessIsTotal(a[1..], b[1..]);
      assert a == b <==> a[0] == b[0] && a[1..] == b[1..] by {
        assert a == [a[0]] + a[1..] && b == [b[0]] + b[1..];
      }
    }
  }

  /** One string comes before another when it is a proper prefix, or has the smaller character at the first place where
      they differ. */
  lemma {:induction false} LessIff(a: string, b: string)
    ensures Less(a, b) <==>
            exists n | 0 <= n <= |a| && n < |b| && a[..n] == b[..n] :: n == |a| || a[n] < b[n]
  {
    if a != "" && b != "" {
      var x, y := a[1..], b[1..];
      LessIff(x, y);
      if n :| 0 <= n <= |x| && n < |y| && x[..n] == y[..n] && (n == |x| || x[n] < y[n]) && a[0] == b[0] {
        assert a[..n + 1] == [a[0]] + x[..n] && b[..n + 1] == [b[0]] + y[..n];
      }
      if n :| 0 <= n <= |a| && n < |b| && a[..n] == b[..n] && (n == |a| || a[n] < b[n]) && n > 0 {
        assert a[0] == a[..n][0] && b[0] == b[..n][0];
        assert x[..n - 1] == a[..n][1..] && y[..n - 1] == b[..n][1..];
      }
      assert a[..0] == b[..0];
    } else {
      assert a[..0] == b[..0];
    }
  }

  predicate Sorted(rows: seq<string>) {
    forall i, j | 0 <= i < j < |rows| :: Less(rows[i], rows[j])
  }

  /** The list holds exactly these strings, each once and in order. */
  ghost predicate IsListing(rows: seq<string>, answer: set<string>) {
    Sorted(rows) && forall x :: x in rows <==> x in answer
  }

  /** A set has one listing only. */
  lemma {:induction false} ListingIsUnique(a: seq<string>, b: seq<string>, answer: set<string>)
    requires IsListing(a, answer) && IsListing(b, answer)
    ensures a == b
    decreases |a|
  {
    assert a != [] ==> a[0] in b;
    assert b != [] ==> b[0] in a;
    if a != [] && b != [] {
      FirstIsLeast(a, b);
      RestIsListing(a, answer);
      RestIsListing(b, answer);
      ListingIsUnique(a[1..], b[1..], answer - {a[0]});
      assert a == [a[0]] + a[1..] && b == [b[0]] + b[1..];
    }
  }

  lemma FirstIsLeast(a: seq<string>, b: seq<string>)
    requires Sorted(a) && Sorted(b) && a != [] && b != []
    requires a[0] in b && b[0] in a
    ensures a[0] == b[0]
  {
    var i :| 0 <= i < |b| && b[i] == a[0];
    var j :| 0 <= j < |a| && a[j] == b[0];
    LessIsTotal(a[0], b[0]);
    LessIsTotal(b[0], a[0]);
  }

  lemma RestIsListing(rows: seq<string>, answer: set<string>)
    requires IsListing(rows, answer) && rows != []
    ensures IsListing(rows[1..], answer - {rows[0]})
  {
    LessIsTotal(rows[0], rows[0]);
    assert rows[0] !in rows[1..];
    forall x ensures x in rows[1..] <==> x in answer - {rows[0]} {
      assert x in rows <==> x == rows[0] || x in rows[1..] by {
        assert rows == [rows[0]] + rows[1..];
      }
    }
  }

  /** ORDER BY over a distinct answer. */
  method OrderBy(answer: set<string>) returns (rows: seq<string>)
    ensures IsListing(rows, answer)
  {
    rows := [];
    var rest := answer;
    while rest != {}
      invariant rest <= answer && IsListing(rows, answer - rest)
      decreases |rest|
    {
      var x :| x in rest;
      var at := 0;
      while at < |rows| && Less(rows[at], x)
        invariant at <= |rows|
        invariant forall i | 0 <= i < at :: Less(rows[i], x)
      {
        at := at + 1;
      }
      assert x !in rows;
      InsertKeepsListing(rows, answer - rest, x, at);
      rows := rows[..at] + [x] + rows[at..];
      assert answer - rest + {x} == answer - (rest - {x});
      rest := rest - {x};
    }
    assert answer - {} == answer;
  }

  lemma InsertKeepsListing(rows: seq<string>, answer: set<string>, x: string, at: nat)
    requires IsListing(rows, answer) && x !in rows && at <= |rows|
    requires forall i | 0 <= i < at :: Less(rows[i], x)
    requires at < |rows| ==> !Less(rows[at], x)
    ensures IsListing(rows[..at] + [x] + rows[at..], answer + {x})
  {
    InsertKeepsSorted(rows, x, at);
    forall y ensures y in rows[..at] + [x] + rows[at..] <==> y in answer + {x} {
      assert y in rows <==> y in rows[..at] || y in rows[at..] by {
        assert rows == rows[..at] + rows[at..];
      }
    }
  }

  lemma InsertKeepsSorted(rows: seq<string>, x: string, at: nat)
    requires Sorted(rows) && x !in rows && at <= |rows|
    requires forall i | 0 <= i < at :: Less(rows[i], x)
    requires at < |rows| ==> !Less(rows[at], x)
    ensures Sorted(rows[..at] + [x] + rows[at..])
  {
    forall i | at <= i < |rows| ensures Less(x, rows[i]) {
      LessIsTotal(x, rows[at]);
      if i > at {
        LessIsTransitive(x, rows[at], rows[i]);
      }
    }
  }
}
