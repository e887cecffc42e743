/** The JavaScript string operations the components rely on, over `seq<char>`:
    `split` and `join`, `startsWith`, `padStart`, digit tests and number formatting. */
module Text {
  import opened Wrappers

  predicate IsDigit(c: char) {
    '0' <= c <= '9'
  }

  predicate AllDigits(s: string) {
    forall i :: 0 <= i < |s| ==> IsDigit(s[i])
  }

  predicate StartsWith(s: string, prefix: string) {
    |prefix| <= |s| && s[..|prefix|] == prefix
  }

  /** `s.padStart(n, c)`: left-pads with `c` up to length `n`; a longer string is unchanged. */
  function PadStart(s: string, n: nat, c: char): (r: string)
    ensures |r| == if |s| < n then n else |s|
    ensures r[|r| - |s|..] == s
    ensures forall i :: 0 <= i < |r| - |s| ==> r[i] == c
  {
    if |s| < n then seq(n - |s|, _ => c) + s else s
  }

  // ---------------------------------------------------------------------------
  // Decimal numbers

  function DigitChar(d: nat): (c: char)
    requires d < 10
    ensures IsDigit(c) && DigitValue(c) == d
  {
    ('0' as int + d) as char
  }

  function DigitValue(c: char): nat
    requires IsDigit(c)
  {
    c as int - '0' as int
  }

  /** `String(n)` for a non-negative integer: its decimal digits, no leading zeros. */
  function NatToString(n: nat): (r: string)
    ensures |r| > 0 && AllDigits(r)
    ensures |r| == 1 <==> n < 10
    decreases n
  {
    if n < 10 then [DigitChar(n)] else NatToString(n / 10) + [DigitChar(n % 10)]
  }

  /** A number below 100 has at most two digits, so padding it to two gives exactly two. */
  lemma TwoDigits(n: nat)
    requires n < 100
    ensures |PadStart(NatToString(n), 2, '0')| == 2
    ensures AllDigits(PadStart(NatToString(n), 2, '0'))
    ensures DigitsValue(PadStart(NatToString(n), 2, '0')) == n
  {
    if n >= 10 {
      assert |NatToString(n / 10)| == 1;
    }
    PaddedNatValue(n, 2);
  }

  /** `String(i)` for any integer (a leading `-` when negative). */
  function IntToString(i: int): string {
    if i < 0 then "-" + NatToString(-i) else NatToString(i)
  }

  /** The value of a run of decimal digits (`+s` / `Number(s)` on such a string). */
  function DigitsValue(s: string): nat
    requires AllDigits(s)
    decreases |s|
  {
    if s == [] then 0 else DigitsValue(s[..|s| - 1]) * 10 + DigitValue(s[|s| - 1])
  }

  /** Reading back the digits that `NatToString` wrote gives the number again. */
  lemma {:induction false} DigitsValueOfNatToString(n: nat)
    ensures DigitsValue(NatToString(n)) == n
    decreases n
  {
    if n >= 10 {
      DigitsValueOfNatToString(n / 10);
      var s := NatToString(n);
      assert s[..|s| - 1] == NatToString(n / 10);
    }
  }

  /** Leading zeros do not change the value of a run of digits. */
  lemma {:induction false} DigitsValueLeadingZeros(z: nat, s: string)
    requires AllDigits(s)
    ensures AllDigits(seq(z, _ => '0') + s)
    ensures DigitsValue(seq(z, _ => '0') + s) == DigitsValue(s)
    decreases |s| + z
  {
    var t := seq(z, _ => '0') + s;
    if s == [] {
      if z > 0 {
        assert t[..|t| - 1] == seq(z - 1, _ => '0') + [];
        DigitsValueLeadingZeros(z - 1, []);
      }
    } else {
      assert t[..|t| - 1] == seq(z, _ => '0') + s[..|s| - 1];
      DigitsValueLeadingZeros(z, s[..|s| - 1]);
    }
  }

  /** A number padded with zeros still reads as the same number. */
  lemma PaddedNatValue(n: nat, width: nat)
    ensures AllDigits(PadStart(NatToString(n), width, '0'))
    ensures DigitsValue(PadStart(NatToString(n), width, '0')) == n
  {
    var s := NatToString(n);
    var z := if |s| < width then width - |s| else 0;
    assert PadStart(s, width, '0') == seq(z, _ => '0') + s;
    DigitsValueLeadingZeros(z, s);
    DigitsValueOfNatToString(n);
  }

  // ---------------------------------------------------------------------------
  // Searching, splitting and joining

  /** `sep` occurs in `s` starting at position `k`. */
  predicate OccursAt(s: string, sep: string, k: int) {
    0 <= k && k + |sep| <= |s| && s[k..k + |sep|] == sep
  }

  /** `s.indexOf(sep, from)`, with `None` for -1. */
  function IndexOfFrom(s: string, sep: string, from: nat): (r: Option<nat>)
    ensures r.Some? ==> from <= r.value && OccursAt(s, sep, r.value)
    ensures r.Some? ==> forall k :: from <= k < r.value ==> !OccursAt(s, sep, k)
    ensures r.None? ==> forall k :: from <= k ==> !OccursAt(s, sep, k)
    decreases |s| - from
  {
    if from + |sep| > |s| then None
    else if s[from..from + |sep|] == sep then Some(from)
    else IndexOfFrom(s, sep, from + 1)
  }

  function IndexOf(s: string, sep: string): Option<nat> {
    IndexOfFrom(s, sep, 0)
  }

  /** `s.includes(sep)`. */
  predicate Includes(s: string, sep: string) {
    IndexOf(s, sep).Some?
  }

  /** `IndexOf` finds a match exactly when there is one, and finds the first. */
  lemma IndexOfIsFirst(s: string, sep: string, k: nat)
    requires OccursAt(s, sep, k)
    requires forall j :: 0 <= j < k ==> !OccursAt(s, sep, j)
    ensures IndexOf(s, sep) == Some(k)
  {
  }

  /** `s.split(sep)` for a non-empty separator: the pieces between the occurrences of `sep`,
      found left to right without overlap; there is always at least one piece. */
  function SplitOn(s: string, sep: string): (parts: seq<string>)
    requires |sep| > 0
    ensures |parts| >= 1
    decreases |s|
  {
    match IndexOf(s, sep)
    case None => [s]
    case Some(i) => [s[..i]] + SplitOn(s[i + |sep|..], sep)
  }

  /** `s.split(c)` for a one-character separator. */
  function Split(s: string, c: char): seq<string> {
    SplitOn(s, [c])
  }

  /** `parts.join(sep)`; the empty list joins to the empty string. */
  function Join(parts: seq<string>, sep: string): string
    decreases |parts|
  {
    if |parts| == 0 then "" else if |parts| == 1 then parts[0] else parts[0] + sep + Join(parts[1..], sep)
  }

  lemma JoinCons(p: string, rest: seq<string>, sep: string)
    requires |rest| >= 1
    ensures Join([p] + rest, sep) == p + sep + Join(rest, sep)
  {
    assert ([p] + rest)[1..] == rest;
  }

  /** Joining appends one more piece after the separator. */
  lemma {:induction false} JoinSnoc(parts: seq<string>, p: string, sep: string)
    requires |parts| >= 1
    ensures Join(parts + [p], sep) == Join(parts, sep) + sep + p
    decreases |parts|
  {
    if |parts| == 1 {
      assert parts + [p] == [parts[0]] + [p];
      JoinCons(parts[0], [p], sep);
    } else {
      JoinSnoc(parts[1..], p, sep);
      assert parts + [p] == [parts[0]] + (parts[1..] + [p]);
      JoinCons(parts[0], parts[1..] + [p], sep);
      JoinCons(parts[0], parts[1..], sep);
      assert [parts[0]] + parts[1..] == parts;
    }
  }

  /** One step of `JoinSplitOn`: if the text after the first separator splits and joins
      back to itself, so does the whole string. */
  lemma JoinSplitOnStep(s: string, sep: string, i: nat)
    requires |sep| > 0 && IndexOf(s, sep) == Some(i)
    requires Join(SplitOn(s[i + |sep|..], sep), sep) == s[i + |sep|..]
    ensures Join(SplitOn(s, sep), sep) == s
  {
    var rest := s[i + |sep|..];
    var tail := SplitOn(rest, sep);
    assert SplitOn(s, sep) == [s[..i]] + tail;
    JoinCons(s[..i], tail, sep);
    assert OccursAt(s, sep, i);
    assert s == s[..i] + s[i..i + |sep|] + rest;
  }

  /** Splitting and joining again with the same separator restores the string. */
  lemma {:induction false} JoinSplitOn(s: string, sep: string)
    requires |sep| > 0
    ensures Join(SplitOn(s, sep), sep) == s
    decreases |s|
  {
    match IndexOf(s, sep)
    case None =>
    case Some(i) =>
      JoinSplitOn(s[i + |sep|..], sep);
      JoinSplitOnStep(s, sep, i);
  }

  /** No piece produced by `SplitOn` contains the separator. */
  lemma {:induction false} SplitOnPiecesAvoidSep(s: string, sep: string)
    requires |sep| > 0
    ensures forall p :: p in SplitOn(s, sep) ==> !Includes(p, sep)
    decreases |s|
  {
    match IndexOf(s, sep)
    case None =>
    case Some(i) =>
      var first, rest := s[..i], s[i + |sep|..];
      assert !Includes(first, sep) by {
        forall k | 0 <= k ensures !OccursAt(first, sep, k) {
          if k + |sep| <= |first| {
            assert !OccursAt(s, sep, k);
            assert first[k..k + |sep|] == s[k..k + |sep|];
          }
        }
      }
      assert SplitOn(s, sep) == [first] + SplitOn(rest, sep);
      SplitOnPiecesAvoidSep(rest, sep);
  }

  /** For a one-character separator, "does not include" is plain non-membership. */
  lemma IncludesChar(s: string, c: char)
    ensures Includes(s, [c]) <==> c in s
  {
    match IndexOf(s, [c])
    case Some(k) =>
      assert s[k..k + 1] == [c];
      assert s[k] == c;
    case None =>
      if c in s {
        var k :| 0 <= k < |s| && s[k] == c;
        assert s[k..k + 1] == [c];
        assert OccursAt(s, [c], k);
      }
  }

  /** No piece of `Split(s, c)` contains `c`. */
  lemma SplitPiecesAvoid(s: string, c: char)
    ensures forall p :: p in Split(s, c) ==> c !in p
  {
    SplitOnPiecesAvoidSep(s, [c]);
    forall p | p in Split(s, c) ensures c !in p {
      IncludesChar(p, c);
    }
  }

  /** The first piece of `s.split(c)` is the longest prefix of `s` free of `c`: it runs to
      the first `c`, or to the end when there is none. */
  lemma SplitFirstPiece(s: string, c: char)
    ensures var p := Split(s, c)[0];
      StartsWith(s, p) && c !in p && (|p| == |s| || s[|p|] == c)
  {
    SplitPiecesAvoid(s, c);
    match IndexOf(s, [c])
    case None =>
    case Some(i) =>
      assert Split(s, c)[0] == s[..i];
      assert OccursAt(s, [c], i);
      assert s[i..i + 1] == [c];
  }

  /** A prefix of `s` free of `c` that ends at a `c` or at the end is the first piece of
      `s.split(c)`. */
  lemma SplitFirstPieceIs(s: string, c: char, p: string)
    requires StartsWith(s, p) && c !in p && (|p| == |s| || s[|p|] == c)
    ensures Split(s, c)[0] == p
  {
    SplitFirstPiece(s, c);
    var q := Split(s, c)[0];
    assert |q| == |p|;
    assert q == s[..|q|] == p;
  }

  /** Joining pieces free of `c` with `c` and splitting on `c` gives the pieces back. */
  lemma {:induction false} SplitJoin(parts: seq<string>, c: char)
    requires |parts| >= 1
    requires forall p :: p in parts ==> c !in p
    ensures Split(Join(parts, [c]), c) == parts
    decreases |parts|
  {
    var s := Join(parts, [c]);
    if |parts| == 1 {
      IncludesChar(s, c);
    } else {
      var p0 := parts[0];
      var rest := parts[1..];
      JoinCons(p0, rest, [c]);
      assert s == p0 + [c] + Join(rest, [c]);
      assert OccursAt(s, [c], |p0|);
      forall j | 0 <= j < |p0| ensures !OccursAt(s, [c], j) {
        assert s[j..j + 1] == [s[j]];
        assert s[j] == p0[j] && p0[j] in p0;
      }
      IndexOfIsFirst(s, [c], |p0|);
      assert s[..|p0|] == p0;
      assert s[|p0| + 1..] == Join(rest, [c]);
      SplitJoin(rest, c);
      assert [p0] + rest == parts;
    }
  }

  /** The length of a join depends only on the lengths of the pieces and of the separator. */
  lemma {:induction false} JoinLength(a: seq<string>, b: seq<string>, sepA: string, sepB: string)
    requires |a| == |b| && |sepA| == |sepB|
    requires forall i :: 0 <= i < |a| ==> |a[i]| == |b[i]|
    ensures |Join(a, sepA)| == |Join(b, sepB)|
    decreases |a|
  {
    if |a| > 1 {
      JoinLength(a[1..], b[1..], sepA, sepB);
    }
  }

  /** A join contains no character that neither a piece nor the separator contains. */
  lemma {:induction false} JoinAvoids(parts: seq<string>, sep: string, c: char)
    requires c !in sep
    requires forall p :: p in parts ==> c !in p
    ensures c !in Join(parts, sep)
    decreases |parts|
  {
    if |parts| > 1 {
      JoinAvoids(parts[1..], sep, c);
    }
  }
}
