/** The Titan marker rewrite (app.py:132-139): every match of `%\[(\d+)\]%`
    in the answer, found left to right without overlap, is replaced by
    `<sup>[d]</sup>` with the same digit string `d`, and the digit strings
    are collected in the order they are met.

    The regular-expression engine is modelled by a scanner, `Scan`, that cuts
    the text into plain characters and markers. `Render` puts a cut back
    together, `Canonical` says a cut is the one a leftmost, non-overlapping
    search makes, and the lemmas say that `Scan` gives back the text and is
    the only canonical cut of it. */
module Markers {
  import opened Common

  datatype Piece = Plain(c: char) | Marker(digits: string)

  /** Length of the run of digits that starts `s`. */
  function DigitRun(s: string): (n: nat)
    ensures n <= |s| && IsDigits(s[..n])
    ensures n < |s| ==> !IsDigit(s[n])
    decreases |s|
  {
    if |s| > 0 && IsDigit(s[0]) then
      var n := 1 + DigitRun(s[1..]);
      assert s[..n] == [s[0]] + s[1..][..n - 1];
      n
    else 0
  }

  /** The marker text `%[d]%`. */
  function MarkerText(d: string): string {
    "%[" + d + "]%"
  }

  /** The digits of the match of `%\[(\d+)\]%` that starts `s`, if any. */
  function MarkerAt(s: string): (m: Option<string>)
    ensures m.Some? ==>
      && |m.value| > 0 && IsDigits(m.value)
      && |m.value| + 4 <= |s| && s[..|m.value| + 4] == MarkerText(m.value)
  {
    if |s| >= 2 && s[0] == '%' && s[1] == '[' then
      var n := DigitRun(s[2..]);
      if n > 0 && n + 4 <= |s| && s[n + 2] == ']' && s[n + 3] == '%' then
        var d := s[2..n + 2];
        assert d == s[2..][..n];
        assert s[..n + 4] == MarkerText(d);
        Some(d)
      else None
    else None
  }

  /** A marker text is recognised as a match of its own digits, whatever follows. */
  lemma MarkerAtMarkerText(d: string, rest: string)
    requires |d| > 0 && IsDigits(d)
    ensures MarkerAt(MarkerText(d) + rest) == Some(d)
  {
    var s := MarkerText(d) + rest;
    assert s[2..] == d + "]%" + rest;
    DigitRunStops(d, "]%" + rest);
    assert s[0] == '%' && s[1] == '[';
    assert s[|d| + 2] == ']' && s[|d| + 3] == '%';
    assert s[2..|d| + 2] == d;
  }

  /** One unfolding of the scan on a character that cannot start a match. */
  lemma ScanPlain(c: char, rest: string)
    requires c != '%'
    ensures Scan([c] + rest) == [Plain(c)] + Scan(rest)
  {
    assert ([c] + rest)[1..] == rest;
  }

  /** One unfolding of the scan on a match. */
  lemma ScanMarker(d: string, rest: string)
    requires |d| > 0 && IsDigits(d)
    ensures Scan(MarkerText(d) + rest) == [Marker(d)] + Scan(rest)
  {
    MarkerAtMarkerText(d, rest);
    assert (MarkerText(d) + rest)[|d| + 4..] == rest;
  }

  lemma {:induction false} DigitRunStops(d: string, rest: string)
    requires IsDigits(d)
    requires |rest| > 0 && !IsDigit(rest[0])
    ensures DigitRun(d + rest) == |d|
    decreases |d|
  {
    if |d| > 0 {
      assert (d + rest)[1..] == d[1..] + rest;
      DigitRunStops(d[1..], rest);
    } else {
      assert d + rest == rest;
    }
  }

  /** The leftmost, non-overlapping scan. */
  function Scan(s: string): seq<Piece>
    decreases |s|
  {
    if |s| == 0 then []
    else
      match MarkerAt(s)
      case Some(d) => [Marker(d)] + Scan(s[|d| + 4..])
      case None => [Plain(s[0])] + Scan(s[1..])
  }

  function Render(ps: seq<Piece>): string {
    if |ps| == 0 then []
    else
      match ps[0]
      case Plain(c) => [c] + Render(ps[1..])
      case Marker(d) => MarkerText(d) + Render(ps[1..])
  }

  /** The replacement text `<sup>[d]</sup>`. */
  function SuperscriptText(d: string): string {
    "<sup>[" + d + "]</sup>"
  }

  function Superscripted(ps: seq<Piece>): string {
    if |ps| == 0 then []
    else
      match ps[0]
      case Plain(c) => [c] + Superscripted(ps[1..])
      case Marker(d) => SuperscriptText(d) + Superscripted(ps[1..])
  }

  function MarkerDigits(ps: seq<Piece>): seq<string> {
    if |ps| == 0 then []
    else
      match ps[0]
      case Plain(_) => MarkerDigits(ps[1..])
      case Marker(d) => [d] + MarkerDigits(ps[1..])
  }

  /** A cut as the regular-expression search makes it: every marker is a
      real match, and no plain character is the start of one. */
  ghost predicate Canonical(ps: seq<Piece>) {
    forall k :: 0 <= k < |ps| ==>
      match ps[k]
      case Marker(d) => |d| > 0 && IsDigits(d)
      case Plain(_) => MarkerAt(Render(ps[k..])).None?
  }

  lemma {:induction false} ScanRender(s: string)
    ensures Render(Scan(s)) == s
    decreases |s|
  {
    if |s| > 0 {
      match MarkerAt(s)
      case Some(d) =>
        ScanRender(s[|d| + 4..]);
        assert s == s[..|d| + 4] + s[|d| + 4..];
      case None =>
        ScanRender(s[1..]);
        assert s == [s[0]] + s[1..];
    }
  }

  lemma CanonicalTail(ps: seq<Piece>)
    requires |ps| > 0 && Canonical(ps)
    ensures Canonical(ps[1..])
  {
    forall k | 0 <= k < |ps| - 1
      ensures match ps[1..][k]
              case Marker(d) => |d| > 0 && IsDigits(d)
              case Plain(_) => MarkerAt(Render(ps[1..][k..])).None?
    {
      assert ps[1..][k..] == ps[k + 1..];
      assert ps[1..][k] == ps[k + 1];
    }
  }

  lemma {:induction false} ScanCanonical(s: string)
    ensures Canonical(Scan(s))
    decreases |s|
  {
    if |s| > 0 {
      var ps := Scan(s);
      match MarkerAt(s)
      case Some(d) =>
        ScanCanonical(s[|d| + 4..]);
        assert ps[1..] == Scan(s[|d| + 4..]);
        CanonicalCons(Marker(d), ps[1..]);
      case None =>
        ScanCanonical(s[1..]);
        ScanRender(s);
        assert ps[1..] == Scan(s[1..]);
        CanonicalCons(Plain(s[0]), ps[1..]);
    }
  }

  lemma CanonicalCons(p: Piece, tail: seq<Piece>)
    requires Canonical(tail)
    requires p.Marker? ==> |p.digits| > 0 && IsDigits(p.digits)
    requires p.Plain? ==> MarkerAt(Render([p] + tail)).None?
    ensures Canonical([p] + tail)
  {
    var ps := [p] + tail;
    forall k | 1 <= k < |ps|
      ensures match ps[k]
              case Marker(d) => |d| > 0 && IsDigits(d)
              case Plain(_) => MarkerAt(Render(ps[k..])).None?
    {
      assert ps[k..] == tail[k - 1..];
      assert ps[k] == tail[k - 1];
    }
    assert ps[0..] == ps;
  }

  /** A canonical cut is the one the scanner makes: `Scan` is the only
      leftmost, non-overlapping reading of a text. */
  lemma {:induction false} ScanUnique(ps: seq<Piece>)
    requires Canonical(ps)
    ensures Scan(Render(ps)) == ps
    decreases |ps|
  {
    if |ps| > 0 {
      CanonicalTail(ps);
      ScanUnique(ps[1..]);
      var s := Render(ps);
      assert ps[0..] == ps;
      match ps[0]
      case Marker(d) =>
        MarkerAtMarkerText(d, Render(ps[1..]));
        assert s[|d| + 4..] == Render(ps[1..]);
      case Plain(c) =>
        assert s[1..] == Render(ps[1..]);
    }
  }

  /** `re.sub(r"%\[(\d+)\]%", replace_citation, text)` together with the list
      its callback collects, as the code evidently means it. */
  function RewriteMarkers(text: string): (r: (string, seq<string>))
    ensures exists ps :: Canonical(ps) && Render(ps) == text && r == (Superscripted(ps), MarkerDigits(ps))
  {
    var ps := Scan(text);
    ScanRender(text);
    ScanCanonical(text);
    (Superscripted(ps), MarkerDigits(ps))
  }

  /** Every collected entry is the digit string of a real match. */
  lemma {:induction false} MarkerDigitsAreDigits(ps: seq<Piece>)
    requires Canonical(ps)
    ensures forall k :: 0 <= k < |MarkerDigits(ps)| ==> |MarkerDigits(ps)[k]| > 0 && IsDigits(MarkerDigits(ps)[k])
    decreases |ps|
  {
    if |ps| > 0 {
      CanonicalTail(ps);
      MarkerDigitsAreDigits(ps[1..]);
      assert ps[0..] == ps;
    }
  }

  /** The list that the rewrite collects holds digit strings only, so
      `int(key)` accepts every one of them. */
  lemma RewriteCollectsDigits(text: string)
    ensures forall k :: 0 <= k < |RewriteMarkers(text).1| ==> |RewriteMarkers(text).1[k]| > 0 && IsDigits(RewriteMarkers(text).1[k])
  {
    ScanCanonical(text);
    MarkerDigitsAreDigits(Scan(text));
  }

  /** No plain character of the cut is `%` and every marker is real. */
  predicate PercentOnlyInMarkers(ps: seq<Piece>) {
    forall k :: 0 <= k < |ps| ==>
      match ps[k]
      case Plain(c) => c != '%'
      case Marker(d) => |d| > 0 && IsDigits(d)
  }

  /** Such a cut is canonical: no plain character can start a match, so it is
      what the scanner makes of its text. */
  lemma ScanWithoutPercent(ps: seq<Piece>)
    requires PercentOnlyInMarkers(ps)
    ensures Scan(Render(ps)) == ps
  {
    forall k | 0 <= k < |ps| && ps[k].Plain?
      ensures MarkerAt(Render(ps[k..])).None?
    {
      assert ps[k..][0] == ps[k];
      assert Render(ps[k..])[0] == ps[k].c;
    }
    assert Canonical(ps);
    ScanUnique(ps);
  }

  /** The cut of the example answer "A %[3]% B %[3]% C %[7]%". */
  const ExampleCut: seq<Piece> :=
    [Plain('A'), Plain(' '), Marker("3"), Plain(' '), Plain('B'), Plain(' '),
     Marker("3"), Plain(' '), Plain('C'), Plain(' '), Marker("7")]

  /** The scan of the example answer is its cut. */
  lemma ScanExample(text: string)
    requires text == "A %[3]% B %[3]% C %[7]%"
    ensures Scan(text) == ExampleCut
  {
    assert text == ['A', ' '] + MarkerText("3") + [' ', 'B', ' '] + MarkerText("3") + [' ', 'C', ' '] + MarkerText("7");
    ScanShape('A', 'B', 'C', "3", "3", "7");
  }

  /** The scan of any answer shaped like the example one. */
  lemma ScanShape(a: char, b: char, c: char, d1: string, d2: string, d3: string)
    requires a != '%' && b != '%' && c != '%'
    requires |d1| > 0 && IsDigits(d1) && |d2| > 0 && IsDigits(d2) && |d3| > 0 && IsDigits(d3)
    ensures Scan([a, ' '] + MarkerText(d1) + [' ', b, ' '] + MarkerText(d2) + [' ', c, ' '] + MarkerText(d3))
         == [Plain(a), Plain(' '), Marker(d1), Plain(' '), Plain(b), Plain(' '), Marker(d2), Plain(' '), Plain(c), Plain(' '), Marker(d3)]
  {
    var r10 := MarkerText(d3);
    var r9 := [' '] + r10;
    var r8 := [c] + r9;
    var r7 := [' '] + r8;
    var r6 := MarkerText(d2) + r7;
    var r5 := [' '] + r6;
    var r4 := [b] + r5;
    var r3 := [' '] + r4;
    var r2 := MarkerText(d1) + r3;
    var r1 := [' '] + r2;
    var r0 := [a] + r1;
    assert [a, ' '] + MarkerText(d1) + [' ', b, ' '] + MarkerText(d2) + [' ', c, ' '] + MarkerText(d3) == r0;
    var c10 := [Marker(d3)];
    var c9 := [Plain(' ')] + c10;
    var c8 := [Plain(c)] + c9;
    var c7 := [Plain(' ')] + c8;
    var c6 := [Marker(d2)] + c7;
    var c5 := [Plain(' ')] + c6;
    var c4 := [Plain(b)] + c5;
    var c3 := [Plain(' ')] + c4;
    var c2 := [Marker(d1)] + c3;
    var c1 := [Plain(' ')] + c2;
    var c0 := [Plain(a)] + c1;
    assert c0 == [Plain(a), Plain(' '), Marker(d1), Plain(' '), Plain(b), Plain(' '), Marker(d2), Plain(' '), Plain(c), Plain(' '), Marker(d3)];
    assert r10 + [] == r10;
    ScanMarker(d3, []);
    assert Scan(r10) == c10;
    ScanPlain(' ', r10);
    assert Scan(r9) == c9;
    ScanPlain(c, r9);
    assert Scan(r8) == c8;
    ScanPlain(' ', r8);
    assert Scan(r7) == c7;
    ScanMarker(d2, r7);
    assert Scan(r6) == c6;
    ScanPlain(' ', r6);
    assert Scan(r5) == c5;
    ScanPlain(b, r5);
    assert Scan(r4) == c4;
    ScanPlain(' ', r4);
    assert Scan(r3) == c3;
    ScanMarker(d1, r3);
    assert Scan(r2) == c2;
    ScanPlain(' ', r2);
    assert Scan(r1) == c1;
    ScanPlain(a, r1);
    assert Scan(r0) == c0;
  }

  lemma ExampleCutDigits()
    ensures MarkerDigits(ExampleCut) == ["3", "3", "7"]
  {
  }

  /** The example answer: the collected list is ["3", "3", "7"]. */
  lemma RewriteExample(text: string)
    requires text == "A %[3]% B %[3]% C %[7]%"
    ensures RewriteMarkers(text).1 == ["3", "3", "7"]
  {
    ScanExample(text);
    ExampleCutDigits();
  }
}
