/** Placeholders in SQL text and the argument each one reads in the two dialects. */
module SqlPlaceholders {
  import opened Prelude

  datatype Placeholder = Numbered(n: nat) | Positional

  /** PostgreSQL: $n is argument n, counted from one; a question mark is no placeholder. */
  function BindPostgres(p: Placeholder, args: seq<string>): Option<string> {
    if p.Numbered? && 1 <= p.n <= |args| then Some(args[p.n - 1]) else None
  }

  /** SQLite reads the text from the left. A name such as $1 takes the next free number when it is new and
      keeps it; a question mark takes one more than the largest number so far. */
  datatype Scan = Scan(names: map<nat, nat>, largest: nat)

  function ScanOne(p: Placeholder, scan: Scan): (nat, Scan) {
    if p.Numbered? && p.n in scan.names then (scan.names[p.n], scan)
    else if p.Numbered? then (scan.largest + 1, Scan(scan.names[p.n := scan.largest + 1], scan.largest + 1))
    else (scan.largest + 1, scan.(largest := scan.largest + 1))
  }

  function ScanAll(ps: seq<Placeholder>, scan: Scan): (r: (seq<nat>, Scan))
    ensures |r.0| == |ps|
  {
    if ps == [] then ([], scan)
    else
      var (first, after) := ScanOne(ps[0], scan);
      var (rest, last) := ScanAll(ps[1..], after);
      ([first] + rest, last)
  }

  const SCAN_START := Scan(map[], 0)

  predicate ReadOwnNumbers(ps: seq<Placeholder>, indexes: seq<nat>)
    requires |ps| == |indexes|
  {
    forall i | 0 <= i < |ps| :: ps[i].Numbered? && indexes[i] == ps[i].n
  }

  /** Every placeholder is a number, and SQLite reads the argument that PostgreSQL reads. */
  predicate RulesAgree(ps: seq<Placeholder>) {
    ReadOwnNumbers(ps, ScanAll(ps, SCAN_START).0)
  }

  lemma FirstAndRestReadOwn(ps: seq<Placeholder>, indexes: seq<nat>)
    requires |ps| == |indexes| > 0
    ensures ReadOwnNumbers(ps, indexes) <==>
            ps[0].Numbered? && indexes[0] == ps[0].n && ReadOwnNumbers(ps[1..], indexes[1..])
  {
    assert forall i | 0 <= i < |ps| - 1 :: ps[1..][i] == ps[i + 1] && indexes[1..][i] == indexes[i + 1];
    assert forall i | 1 <= i < |ps| :: ps[i] == ps[1..][i - 1] && indexes[i] == indexes[1..][i - 1];
  }

  /** Each number has been used before or is the next one. */
  predicate InFirstUseOrder(ps: seq<Placeholder>, largest: nat) {
    ps == [] ||
    (ps[0].Numbered? && 1 <= ps[0].n <= largest + 1 &&
     InFirstUseOrder(ps[1..], if ps[0].n > largest then ps[0].n else largest))
  }

  function TakenInTurn(largest: nat): (names: map<nat, nat>)
    ensures forall k :: k in names <==> 1 <= k <= largest
    ensures forall k | k in names :: names[k] == k
  {
    if largest == 0 then map[] else TakenInTurn(largest - 1)[largest := largest]
  }

  /** The scan after the first `largest` numbers, each taken in turn. */
  function InTurn(largest: nat): Scan {
    Scan(TakenInTurn(largest), largest)
  }

  lemma {:induction false} AgreeFromIff(ps: seq<Placeholder>, largest: nat)
    ensures ReadOwnNumbers(ps, ScanAll(ps, InTurn(largest)).0) <==> InFirstUseOrder(ps, largest)
    decreases |ps|
  {
    if ps != [] {
      var indexes := ScanAll(ps, InTurn(largest)).0;
      FirstAndRestReadOwn(ps, indexes);
      hide ReadOwnNumbers;
      if ps[0].Numbered? && indexes[0] == ps[0].n {
        var next := if ps[0].n > largest then ps[0].n else largest;
        assert ScanOne(ps[0], InTurn(largest)).1 == InTurn(next);
        AgreeFromIff(ps[1..], next);
        assert indexes[1..] == ScanAll(ps[1..], InTurn(next)).0;
      }
    }
  }

  /** The two rules agree on a text exactly when its numbers come in the order of their first use. */
  lemma RulesAgreeIff(ps: seq<Placeholder>)
    ensures RulesAgree(ps) <==> InFirstUseOrder(ps, 0)
  {
    assert InTurn(0) == SCAN_START;
    AgreeFromIff(ps, 0);
  }

  /** The text $from, ..., $to is in that order. */
  lemma {:induction false} ConsecutiveIsInOrder(ps: seq<Placeholder>, largest: nat)
    requires forall i | 0 <= i < |ps| :: ps[i] == Numbered(largest + 1 + i)
    ensures InFirstUseOrder(ps, largest)
    decreases |ps|
  {
    if ps != [] {
      ConsecutiveIsInOrder(ps[1..], largest + 1);
    }
  }

  /** Used the other way round, two numbers read each other's arguments. */
  lemma SwappedNumbersDisagree()
    ensures ScanAll([Numbered(2), Numbered(1)], SCAN_START).0 == [1, 2]
    ensures !RulesAgree([Numbered(2), Numbered(1)])
  {
    RulesAgreeIff([Numbered(2), Numbered(1)]);
    var ps, scan := [Numbered(2), Numbered(1)], Scan(map[2 := 1], 1);
    assert ps[1..] == [Numbered(1)] && ps[1..][1..] == [];
    assert ScanAll(ps[1..], scan).0 == [2];
  }
}
