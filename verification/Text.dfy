/** The string helpers the services build on: Go's strings.Split with a one-character separator,
    strings.Join, strings.TrimSpace and strings.Trim, over sequences of characters. */
module Text {

  /** The characters that Go's unicode.IsSpace accepts. */
  predicate IsSpace(c: char) {
    var i := c as int;
    0x09 <= i <= 0x0D || i == 0x20 || i == 0x85 || i == 0xA0 || i == 0x1680 ||
    0x2000 <= i <= 0x200A || i == 0x2028 || i == 0x2029 || i == 0x202F || i == 0x205F || i == 0x3000
  }

  /** Tab to carriage return, space, next line, no-break space, and the space and line separators of Unicode. */
  lemma SpacesAre(c: char)
    ensures IsSpace(c) <==>
            c in "\t\n\U{B}\U{C}\r \U{85}\U{A0}\U{1680}\U{2000}\U{2001}\U{2002}\U{2003}\U{2004}\U{2005}" ||
            c in "\U{2006}\U{2007}\U{2008}\U{2009}\U{200A}\U{2028}\U{2029}\U{202F}\U{205F}\U{3000}"
  {
  }

  // ---------------------------------------------------------------- trimming

  function TrimLeft(s: string, drop: char -> bool): string {
    if s != "" && drop(s[0]) then TrimLeft(s[1..], drop) else s
  }

  function TrimRight(s: string, drop: char -> bool): string {
    if s != "" && drop(s[|s| - 1]) then TrimRight(s[..|s| - 1], drop) else s
  }

  function Trim(s: string, drop: char -> bool): string {
    TrimRight(TrimLeft(s, drop), drop)
  }

  function TrimSpace(s: string): string {
    Trim(s, IsSpace)
  }

  predicate IsSlash(c: char) { c == '/' }

  /** Nothing to trim at either end. */
  predicate Clean(s: string, drop: char -> bool) {
    s == "" || (!drop(s[0]) && !drop(s[|s| - 1]))
  }

  predicate Trimmed(s: string) {
    TrimSpace(s) == s
  }

  lemma {:induction false} TrimRightClean(s: string, drop: char -> bool)
    ensures var r := TrimRight(s, drop);
            && r <= s
            && (r == "" || !drop(r[|r| - 1]))
            && (forall k | |r| <= k < |s| :: drop(s[k]))
  {
    if s != "" && drop(s[|s| - 1]) {
      TrimRightClean(s[..|s| - 1], drop);
    }
  }

  lemma {:induction false} TrimLeftClean(s: string, drop: char -> bool)
    ensures var r := TrimLeft(s, drop);
            && |r| <= |s| && r == s[|s| - |r|..]
            && (r == "" || !drop(r[0]))
            && (forall k | 0 <= k < |s| - |r| :: drop(s[k]))
  {
    if s != "" && drop(s[0]) {
      TrimLeftClean(s[1..], drop);
      var r := TrimLeft(s, drop);
      assert forall k | 1 <= k < |s| - |r| :: s[k] == s[1..][k - 1];
    }
  }

  /** A trimmed string is the original without a droppable prefix and suffix, and is itself clean. */
  lemma TrimIsClean(s: string, drop: char -> bool)
    ensures Clean(Trim(s, drop), drop)
    ensures exists a, b :: 0 <= a <= b <= |s| && Trim(s, drop) == s[a..b]
                           && (forall k | 0 <= k < a :: drop(s[k])) && (forall k | b <= k < |s| :: drop(s[k]))
  {
    hide TrimLeft, TrimRight;
    var l := TrimLeft(s, drop);
    TrimLeftClean(s, drop);
    TrimRightClean(l, drop);
    var r := TrimRight(l, drop);
    var a := |s| - |l|;
    var b := a + |r|;
    assert l == s[a..] && r == l[..|r|];
    assert s[a..b] == s[a..][..|r|];
    forall k | b <= k < |s| ensures drop(s[k]) {
      assert s[k] == l[k - a];
    }
    assert 0 <= a <= b <= |s| && Trim(s, drop) == s[a..b];
    assert r != "" ==> r[0] == l[0];
  }

  /** Cleanness is exactly what trimming leaves alone. */
  lemma CleanIffUnchanged(s: string, drop: char -> bool)
    ensures Clean(s, drop) <==> Trim(s, drop) == s
  {
    TrimIsClean(s, drop);
  }

  lemma TrimSpaceTrimmed(s: string)
    ensures Trimmed(TrimSpace(s))
  {
    TrimIsClean(s, IsSpace);
    CleanIffUnchanged(TrimSpace(s), IsSpace);
  }

  /** A separator that is not white space survives trimming. */
  lemma TrimKeeps(s: string, c: char)
    requires !IsSpace(c)
    ensures c in TrimSpace(s) <==> c in s
  {
    TrimIsClean(s, IsSpace);
  }

  // ---------------------------------------------------------------- splitting and joining

  /** Puts one more character in front of a split string. */
  function Prepend(c: char, pieces: seq<string>, sep: char): (more: seq<string>)
    requires |pieces| >= 1
    ensures |more| >= 1
  {
    if c == sep then [""] + pieces else [[c] + pieces[0]] + pieces[1..]
  }

  function Split(s: string, sep: char): (pieces: seq<string>)
    ensures |pieces| >= 1
  {
    if s == "" then [""] else Prepend(s[0], Split(s[1..], sep), sep)
  }

  function Join(pieces: seq<string>, sep: char): string {
    if pieces == [] then ""
    else if |pieces| == 1 then pieces[0]
    else pieces[0] + [sep] + Join(pieces[1..], sep)
  }

  predicate SepFree(pieces: seq<string>, sep: char) {
    forall i | 0 <= i < |pieces| :: sep !in pieces[i]
  }

  lemma PrependAppend(c: char, left: seq<string>, right: seq<string>, sep: char)
    requires |left| >= 1
    ensures Prepend(c, left + right, sep) == Prepend(c, left, sep) + right
  {
    assert (left + right)[1..] == left[1..] + right;
  }

  lemma {:induction false} SplitAtSep(a: string, b: string, sep: char)
    ensures Split(a + [sep] + b, sep) == Split(a, sep) + Split(b, sep)
  {
    var whole := a + [sep] + b;
    if a == "" {
      assert whole[0] == sep && whole[1..] == b;
    } else {
      assert whole[0] == a[0] && whole[1..] == a[1..] + [sep] + b;
      SplitAtSep(a[1..], b, sep);
      PrependAppend(a[0], Split(a[1..], sep), Split(b, sep), sep);
    }
  }

  lemma {:induction false} SplitSepFree(s: string, sep: char)
    requires sep !in s
    ensures Split(s, sep) == [s]
  {
    if s != "" {
      SplitSepFree(s[1..], sep);
      assert [s[0]] + s[1..] == s;
    }
  }

  /** Splitting undoes joining as long as no piece contains the separator. */
  lemma {:induction false} SplitJoin(pieces: seq<string>, sep: char)
    requires pieces != [] && SepFree(pieces, sep)
    ensures Split(Join(pieces, sep), sep) == pieces
  {
    SplitSepFree(pieces[0], sep);
    if |pieces| > 1 {
      SplitJoin(pieces[1..], sep);
      SplitAtSep(pieces[0], Join(pieces[1..], sep), sep);
    }
  }

  lemma {:induction false} SplitIsSepFree(s: string, sep: char)
    ensures SepFree(Split(s, sep), sep)
  {
    if s != "" {
      SplitIsSepFree(s[1..], sep);
    }
  }

  lemma {:induction false} JoinSnoc(pieces: seq<string>, last: string, sep: char)
    requires pieces != []
    ensures Join(pieces + [last], sep) == Join(pieces, sep) + [sep] + last
  {
    if |pieces| > 1 {
      assert (pieces + [last])[1..] == pieces[1..] + [last];
      JoinSnoc(pieces[1..], last, sep);
    } else {
      assert (pieces + [last])[1..] == [last];
    }
  }

  // ---------------------------------------------------------------- trimmed pieces

  /** The trimmed, non-blank pieces in order. */
  function Segments(pieces: seq<string>): seq<string> {
    if pieces == [] then []
    else (if TrimSpace(pieces[0]) != "" then [TrimSpace(pieces[0])] else []) + Segments(pieces[1..])
  }

  lemma {:induction false} SegmentsAppend(a: seq<string>, b: seq<string>)
    ensures Segments(a + b) == Segments(a) + Segments(b)
  {
    if a == [] {
      assert a + b == b;
    } else {
      assert (a + b)[1..] == a[1..] + b;
      SegmentsAppend(a[1..], b);
    }
  }

  lemma {:induction false} SegmentsAreTrimmed(pieces: seq<string>)
    ensures forall i | 0 <= i < |Segments(pieces)| :: Trimmed(Segments(pieces)[i]) && Segments(pieces)[i] != ""
  {
    if pieces != [] {
      TrimSpaceTrimmed(pieces[0]);
      SegmentsAreTrimmed(pieces[1..]);
    }
  }

  lemma {:induction false} SegmentsOfTrimmed(handles: seq<string>)
    requires forall i | 0 <= i < |handles| :: Trimmed(handles[i]) && handles[i] != ""
    ensures Segments(handles) == handles
  {
    if handles != [] {
      SegmentsOfTrimmed(handles[1..]);
    }
  }

  lemma {:induction false} SegmentsAreSepFree(pieces: seq<string>, sep: char)
    requires SepFree(pieces, sep) && !IsSpace(sep)
    ensures SepFree(Segments(pieces), sep)
  {
    if pieces != [] {
      TrimKeeps(pieces[0], sep);
      SegmentsAreSepFree(pieces[1..], sep);
    }
  }

  /** Blank is nothing but white space. */
  lemma BlankIff(s: string)
    ensures TrimSpace(s) == "" <==> forall i | 0 <= i < |s| :: IsSpace(s[i])
  {
    TrimIsClean(s, IsSpace);
  }

  /** Joined trimmed non-blank pieces read back, and the joined text is not blank. */
  lemma SegmentsOfJoin(pieces: seq<string>, sep: char)
    requires pieces != [] && SepFree(pieces, sep) && !IsSpace(sep)
    requires forall i | 0 <= i < |pieces| :: Trimmed(pieces[i]) && pieces[i] != ""
    ensures Segments(Split(Join(pieces, sep), sep)) == pieces
    ensures TrimSpace(Join(pieces, sep)) != ""
  {
    SplitJoin(pieces, sep);
    SegmentsOfTrimmed(pieces);
    BlankHasNoSegments(Join(pieces, sep), sep);
  }

  lemma BlankHasNoSegments(s: string, sep: char)
    requires !IsSpace(sep)
    ensures TrimSpace(s) == "" ==> Segments(Split(s, sep)) == []
  {
    if TrimSpace(s) == "" {
      BlankIff(s);
      SplitSepFree(s, sep);
      assert Segments([s]) == [];
    }
  }
}
