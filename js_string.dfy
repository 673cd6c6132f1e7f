/** The JavaScript string built-ins the middleware relies on, written out over
    `seq<char>`: `String.prototype.split` with a one-character separator, the
    first-occurrence `String.prototype.replace` with a string pattern, `toUpperCase`
    (ASCII letters), `parseInt(_, 10)` and the decimal rendering of an integer. */
module JsString {
  import opened Wrappers

  // ---------------------------------------------------------------------------
  // split / join

  /** `s.split(c)` for a one-character separator: the maximal pieces between
      separators, always at least one (the empty string splits into `[""]`). */
  function Split(s: string, c: char): (r: seq<string>)
    ensures |r| >= 1
    ensures forall i :: 0 <= i < |r| ==> c !in r[i]
    ensures |r| == 1 <==> c !in s
    ensures |r| == 1 ==> r[0] == s
    decreases |s|
  {
    if |s| == 0 then [""]
    else
      var rest := Split(s[1..], c);
      if s[0] == c then [""] + rest
      else [[s[0]] + rest[0]] + rest[1..]
  }

  /** `parts.join(c)`: the pieces glued back with the separator between them. */
  function Join(parts: seq<string>, c: char): string
    requires |parts| >= 1
  {
    if |parts| == 1 then parts[0] else parts[0] + [c] + Join(parts[1..], c)
  }

  /** Splitting then joining gives back the string. */
  lemma {:induction false} JoinSplit(s: string, c: char)
    ensures Join(Split(s, c), c) == s
    decreases |s|
  {
    if |s| > 0 {
      JoinSplit(s[1..], c);
      var rest := Split(s[1..], c);
      if s[0] == c {
        assert Split(s, c) == [""] + rest;
        assert ([""] + rest)[1..] == rest;
      } else {
        var r := [[s[0]] + rest[0]] + rest[1..];
        assert Split(s, c) == r;
        if |rest| == 1 {
          assert Join(r, c) == [s[0]] + rest[0];
        } else {
          assert r[1..] == rest[1..];
          assert Join(rest, c) == rest[0] + [c] + Join(rest[1..], c);
          assert Join(r, c) == [s[0]] + rest[0] + [c] + Join(rest[1..], c);
        }
        assert s == [s[0]] + s[1..];
      }
    }
  }

  /** The split of a non-empty string, in terms of the split of its tail. */
  lemma SplitHead(s: string, c: char)
    requires |s| > 0
    ensures var rest := Split(s[1..], c);
      Split(s, c) == if s[0] == c then [""] + rest else [[s[0]] + rest[0]] + rest[1..]
  {
  }

  /** Splitting text that starts with a non-separator extends the first piece. */
  lemma SplitCons(ch: char, t: string, c: char)
    requires ch != c
    ensures var rest := Split(t, c);
      Split([ch] + t, c) == [[ch] + rest[0]] + rest[1..]
  {
    assert ([ch] + t)[1..] == t;
  }

  /** Splitting text that starts with the separator starts a new piece. */
  lemma SplitSep(t: string, c: char)
    ensures Split([c] + t, c) == [""] + Split(t, c)
  {
    assert ([c] + t)[1..] == t;
  }

  /** Joining is unchanged by moving the first character out of the first piece. */
  lemma JoinPeel(parts: seq<string>, c: char)
    requires |parts| >= 1 && |parts[0]| > 0
    ensures Join(parts, c) == [parts[0][0]] + Join([parts[0][1..]] + parts[1..], c)
  {
    var p := parts[0];
    var parts' := [p[1..]] + parts[1..];
    assert p == [p[0]] + p[1..];
    if |parts| > 1 {
      assert parts'[1..] == parts[1..];
    }
  }

  /** Peeling the first character off the first piece: if the shorter pieces
      round-trip, so do the pieces. */
  lemma SplitJoinPeel(parts: seq<string>, c: char)
    requires |parts| >= 1 && |parts[0]| > 0 && c !in parts[0]
    requires Split(Join([parts[0][1..]] + parts[1..], c), c) == [parts[0][1..]] + parts[1..]
    ensures Split(Join(parts, c), c) == parts
  {
    var p := parts[0];
    var parts' := [p[1..]] + parts[1..];
    JoinPeel(parts, c);
    assert p[0] != c;
    SplitCons(p[0], Join(parts', c), c);
    assert parts == [[p[0]] + parts'[0]] + parts'[1..] by {
      assert p == [p[0]] + p[1..];
    }
  }

  /** Dropping an empty first piece: if the other pieces round-trip, so do the
      pieces. */
  lemma SplitJoinEmpty(parts: seq<string>, c: char)
    requires |parts| > 1 && parts[0] == ""
    requires Split(Join(parts[1..], c), c) == parts[1..]
    ensures Split(Join(parts, c), c) == parts
  {
    assert Join(parts, c) == [c] + Join(parts[1..], c);
    SplitSep(Join(parts[1..], c), c);
    assert parts == [""] + parts[1..];
  }

  /** Joining separator-free pieces then splitting gives back the pieces: with
      `JoinSplit`, `Split` is a bijection between strings and non-empty sequences
      of separator-free pieces. */
  lemma {:induction false} SplitJoin(parts: seq<string>, c: char)
    requires |parts| >= 1
    requires forall i :: 0 <= i < |parts| ==> c !in parts[i]
    ensures Split(Join(parts, c), c) == parts
    decreases |parts|, |parts[0]|
  {
    var p := parts[0];
    if |p| > 0 {
      SplitJoin([p[1..]] + parts[1..], c);
      SplitJoinPeel(parts, c);
    } else if |parts| > 1 {
      SplitJoin(parts[1..], c);
      SplitJoinEmpty(parts, c);
    }
  }

  /** One step of the split from the left: the last piece is that of the tail,
      unless the tail has no separator and `s` does not start with one, when the
      last piece is all of `s`. */
  lemma SplitLastStep(s: string, c: char)
    requires |s| > 0
    ensures var ps, rest := Split(s, c), Split(s[1..], c);
      ps[|ps| - 1] == if s[0] == c || |rest| > 1 then rest[|rest| - 1] else s
  {
    SplitHead(s, c);
  }

  /** The last piece of `s.split(c)` (what `.pop()` returns): it is a suffix of `s`
      free of `c`, and when it is not all of `s` it is preceded by a `c`. So it is
      exactly the text after the last `c`, or `s` itself when `c` does not occur. */
  lemma {:induction false} LastPiece(s: string, c: char)
    ensures var p := Split(s, c)[|Split(s, c)| - 1];
      && |p| <= |s| && s[|s| - |p|..] == p
      && (|p| < |s| ==> s[|s| - |p| - 1] == c)
      && (c !in s ==> p == s)
    decreases |s|
  {
    if |s| > 0 {
      SplitLastStep(s, c);
      var rest := Split(s[1..], c);
      if s[0] == c || |rest| > 1 {
        LastPiece(s[1..], c);
        var q := rest[|rest| - 1];
        assert s[|s| - |q|..] == s[1..][|s| - 1 - |q|..];
        if |q| < |s| - 1 {
          assert s[|s| - |q| - 1] == s[1..][|s| - 1 - |q| - 1];
        }
      }
    }
  }

  /** `LastPiece` for a piece given by name. */
  lemma IsLastPiece(s: string, c: char, p: string)
    requires p == Split(s, c)[|Split(s, c)| - 1]
    ensures c !in p && |p| <= |s| && s[|s| - |p|..] == p
    ensures |p| < |s| ==> s[|s| - |p| - 1] == c
  {
    LastPiece(s, c);
  }

  /** Joining one more piece appends the separator and that piece. */
  lemma {:induction false} JoinSnoc(parts: seq<string>, q: string, c: char)
    requires |parts| >= 1
    ensures Join(parts + [q], c) == Join(parts, c) + [c] + q
    decreases |parts|
  {
    assert (parts + [q])[0] == parts[0];
    if |parts| == 1 {
      assert (parts + [q])[1..] == [q];
    } else {
      assert (parts + [q])[1..] == parts[1..] + [q];
      JoinSnoc(parts[1..], q, c);
    }
  }

  /** Text ending in a separator and a separator-free tail splits into the pieces
      of what comes before, then that tail. */
  lemma SplitSnoc(p: string, q: string, c: char)
    requires c !in q
    ensures Split(p + [c] + q, c) == Split(p, c) + [q]
  {
    var ps := Split(p, c);
    JoinSplit(p, c);
    JoinSnoc(ps, q, c);
    assert forall i :: 0 <= i < |ps + [q]| ==> c !in (ps + [q])[i] by {
      forall i | 0 <= i < |ps + [q]|
        ensures c !in (ps + [q])[i]
      {
        if i < |ps| {
          assert (ps + [q])[i] == ps[i];
        }
      }
    }
    SplitJoin(ps + [q], c);
  }

  /** Cut at a separator with no separator after it: the last piece is the text
      after the cut, and the one before it is the last piece of the text before
      the cut. */
  lemma SplitAtLastSep(s: string, k: nat, c: char)
    requires k < |s| && s[k] == c && c !in s[k + 1..]
    ensures var segs, ps := Split(s, c), Split(s[..k], c);
      && |segs| >= 2 && segs[|segs| - 1] == s[k + 1..]
      && segs[|segs| - 2] == ps[|ps| - 1]
  {
    assert s == s[..k] + [c] + s[k + 1..];
    SplitSnoc(s[..k], s[k + 1..], c);
  }

  /** In text holding the separator, the next-to-last piece is the text just
      before the last separator: free of the separator, and preceded by one
      unless it starts the text. */
  lemma NextToLastPiece(s: string, c: char)
    requires c in s
    ensures var segs := Split(s, c);
      && |segs| >= 2
      && var seg, last := segs[|segs| - 2], segs[|segs| - 1];
      && |seg| + 1 + |last| <= |s|
      && s[|s| - |last| - 1 - |seg|..] == seg + [c] + last
      && (|seg| + 1 + |last| < |s| ==> s[|s| - |last| - 2 - |seg|] == c)
  {
    var segs := Split(s, c);
    var last := segs[|segs| - 1];
    var k := |s| - |last| - 1;
    assert 0 <= k < |s| && s[k] == c && s[k + 1..] == last by {
      LastPiece(s, c);
    }
    var ps := Split(s[..k], c);
    var seg := ps[|ps| - 1];
    assert |segs| >= 2 && segs[|segs| - 2] == seg by {
      SplitAtLastSep(s, k, c);
    }
    assert |seg| <= k && s[..k][k - |seg|..] == seg
        && (|seg| < k ==> s[..k][k - |seg| - 1] == c) by {
      LastPiece(s[..k], c);
    }
    assert s[k - |seg|..] == seg + [c] + last by {
      assert s[k - |seg|..] == s[..k][k - |seg|..] + [c] + s[k + 1..];
    }
    if |seg| < k {
      assert s[k - |seg| - 1] == s[..k][k - |seg| - 1];
    }
  }


  /** The first two pieces of `s.split(c)`, when there are two, are the text before
      the first `c` and the text between the first and the second `c`. */
  lemma FirstPieces(s: string, c: char)
    ensures var ps := Split(s, c);
      && |ps[0]| <= |s| && s[..|ps[0]|] == ps[0]
      && (|ps| >= 2 ==>
            && |ps[0]| + 1 + |ps[1]| <= |s|
            && s[|ps[0]|] == c
            && s[|ps[0]| + 1..|ps[0]| + 1 + |ps[1]|] == ps[1]
            && (|ps[0]| + 1 + |ps[1]| < |s| ==> s[|ps[0]| + 1 + |ps[1]|] == c))
  {
    var ps := Split(s, c);
    JoinSplit(s, c);
    if |ps| == 1 {
      assert s == ps[0];
    } else {
      assert s == ps[0] + [c] + Join(ps[1..], c);
      var tail := Join(ps[1..], c);
      assert s[|ps[0]| + 1..] == tail;
      if |ps| == 2 {
        assert tail == ps[1];
      } else {
        assert tail == ps[1] + [c] + Join(ps[2..], c);
        assert tail[|ps[1]|] == c;
      }
      assert s[|ps[0]|] == c;
      assert c in s;
    }
  }

  // ---------------------------------------------------------------------------
  // indexOf / replace (first occurrence of a string pattern)

  predicate OccursAt(s: string, pat: string, i: nat)
  {
    i + |pat| <= |s| && s[i..i + |pat|] == pat
  }

  /** `s.indexOf(pat, from)` (see `IndexOfFromSpec`). */
  function IndexOfFrom(s: string, pat: string, from: nat): Option<nat>
    decreases |s| - from + 1
  {
    if from + |pat| > |s| then None
    else if s[from..from + |pat|] == pat then Some(from)
    else IndexOfFrom(s, pat, from + 1)
  }

  /** `indexOf` finds the least position `>= from` where `pat` occurs, and
      reports none exactly when there is no such position. */
  lemma {:induction false} IndexOfFromSpec(s: string, pat: string, from: nat)
    ensures var r := IndexOfFrom(s, pat, from);
      && (r.Some? ==> from <= r.value && OccursAt(s, pat, r.value))
      && (r.Some? ==> forall j :: from <= j < r.value ==> !OccursAt(s, pat, j))
      && (r.None? ==> forall j :: from <= j ==> !OccursAt(s, pat, j))
    decreases |s| - from + 1
  {
    if from + |pat| <= |s| && s[from..from + |pat|] != pat {
      IndexOfFromSpec(s, pat, from + 1);
    }
  }

  /** `s.replace(pat, rep)` with a string pattern (see `ReplaceFirstSpec`). */
  function ReplaceFirst(s: string, pat: string, rep: string): string
  {
    IndexOfFromSpec(s, pat, 0);
    match IndexOfFrom(s, pat, 0)
    case None => s
    case Some(i) => s[..i] + rep + s[i + |pat|..]
  }

  /** Only the FIRST occurrence of the pattern is replaced, wherever it is; no
      occurrence leaves the string unchanged. */
  lemma ReplaceFirstSpec(s: string, pat: string, rep: string, i: nat)
    ensures (forall j :: !OccursAt(s, pat, j)) ==> ReplaceFirst(s, pat, rep) == s
    ensures (OccursAt(s, pat, i) && forall j :: 0 <= j < i ==> !OccursAt(s, pat, j))
              ==> ReplaceFirst(s, pat, rep) == s[..i] + rep + s[i + |pat|..]
  {
    IndexOfFromSpec(s, pat, 0);
  }

  // ---------------------------------------------------------------------------
  // toUpperCase

  function UpperChar(ch: char): char
  {
    if 'a' <= ch <= 'z' then (ch as int - 'a' as int + 'A' as int) as char else ch
  }

  /** `s.toUpperCase()` restricted to ASCII letters; every other character is kept. */
  function Upper(s: string): (r: string)
    ensures |r| == |s|
    ensures forall i :: 0 <= i < |s| ==> r[i] == UpperChar(s[i])
  {
    seq(|s|, i requires 0 <= i < |s| => UpperChar(s[i]))
  }

  /** Two characters are the same letter up to ASCII case. */
  predicate SameIgnoringCase(a: char, b: char)
  {
    a == b
    || ('a' <= a <= 'z' && b as int == a as int - 32)
    || ('a' <= b <= 'z' && a as int == b as int - 32)
  }

  predicate EqualsIgnoringCase(s: string, t: string)
  {
    |s| == |t| && forall i :: 0 <= i < |s| ==> SameIgnoringCase(s[i], t[i])
  }

  /** A string written in upper-case letters only. */
  predicate UpperLetters(t: string)
  {
    forall i :: 0 <= i < |t| ==> 'A' <= t[i] <= 'Z'
  }

  /** Comparing `Upper(s)` with an upper-case word is a case-insensitive comparison. */
  lemma UpperMatchesIgnoringCase(s: string, t: string)
    requires UpperLetters(t)
    ensures Upper(s) == t <==> EqualsIgnoringCase(s, t)
  {
    if EqualsIgnoringCase(s, t) {
      assert forall i :: 0 <= i < |s| ==> Upper(s)[i] == t[i];
    }
    if Upper(s) == t {
      assert forall i :: 0 <= i < |s| ==> UpperChar(s[i]) == t[i];
    }
  }

  // ---------------------------------------------------------------------------
  // integers: decimal rendering and parseInt(_, 10)

  predicate IsDigit(ch: char) { '0' <= ch <= '9' }

  function DigitChar(d: nat): char
    requires d < 10
  {
    ('0' as int + d) as char
  }

  /** Decimal digits of `n` without leading zeros (`"0"` for zero). */
  function NatToString(n: nat): (r: string)
    ensures |r| >= 1
    ensures forall i :: 0 <= i < |r| ==> IsDigit(r[i])
    ensures |r| > 1 ==> r[0] != '0'
    decreases n
  {
    if n < 10 then [DigitChar(n)] else NatToString(n / 10) + [DigitChar(n % 10)]
  }

  /** `${n}` for an integer: an optional minus sign and the decimal digits. */
  function IntToString(n: int): (r: string)
    ensures |r| >= 1
    ensures r[0] == '-' <==> n < 0
    ensures forall i :: (if n < 0 then 1 else 0) <= i < |r| ==> IsDigit(r[i])
    ensures |r| > (if n < 0 then 1 else 0)
    ensures |r| > (if n < 0 then 2 else 1) ==> r[if n < 0 then 1 else 0] != '0'
  {
    if n < 0 then "-" + NatToString(-n) else NatToString(n)
  }

  /** The value of a run of decimal digits. */
  function DigitsValue(ds: string): nat
    requires forall i :: 0 <= i < |ds| ==> IsDigit(ds[i])
  {
    if |ds| == 0 then 0
    else
      var last := ds[|ds| - 1];
      assert IsDigit(last);
      10 * DigitsValue(ds[..|ds| - 1]) + (last as int - '0' as int)
  }

  /** The characters `parseInt` skips before the number: ECMAScript WhiteSpace and
      LineTerminator (TAB, VT, FF, SP, NBSP, ZWNBSP, the Zs space separators, LF, CR,
      LS, PS). */
  predicate IsJsSpace(ch: char)
  {
    var c := ch as int;
    c == 0x09 || c == 0x0B || c == 0x0C || c == 0x20 || c == 0xA0 || c == 0xFEFF
    || c == 0x1680 || (0x2000 <= c <= 0x200A) || c == 0x202F || c == 0x205F || c == 0x3000
    || c == 0x0A || c == 0x0D || c == 0x2028 || c == 0x2029
  }

  /** The text left once the leading white space is skipped: a suffix of `s`
      after a prefix made of white space alone, starting with a non-space. */
  function TrimStart(s: string): (r: string)
    ensures |r| <= |s| && r == s[|s| - |r|..]
    ensures forall i :: 0 <= i < |s| - |r| ==> IsJsSpace(s[i])
    ensures |r| > 0 ==> !IsJsSpace(r[0])
  {
    if |s| > 0 && IsJsSpace(s[0]) then TrimStart(s[1..]) else s
  }

  /** Length of the longest run of digits at the start of `s`. */
  function DigitPrefix(s: string): (n: nat)
    ensures n <= |s|
    ensures forall i :: 0 <= i < n ==> IsDigit(s[i])
    ensures n < |s| ==> !IsDigit(s[n])
  {
    if |s| > 0 && IsDigit(s[0]) then 1 + DigitPrefix(s[1..]) else 0
  }

  /** `parseInt(s, 10)`: skip leading white space, read an optional sign, then the
      longest run of decimal digits; `None` stands for `NaN` (no digit at all). */
  function ParseInt(s: string): (r: Option<int>)
    ensures r.Some? ==> exists i :: 0 <= i < |s| && IsDigit(s[i])
  {
    ParseSigned(TrimStart(s))
  }

  /** The optional sign, then the digits. */
  function ParseSigned(t: string): Option<int>
  {
    if |t| > 0 && t[0] == '-' then
      match ParseDigitRun(t[1..])
      case None => None
      case Some(v) => Some(-(v as int))
    else if |t| > 0 && t[0] == '+' then
      match ParseDigitRun(t[1..])
      case None => None
      case Some(v) => Some(v as int)
    else
      match ParseDigitRun(t)
      case None => None
      case Some(v) => Some(v as int)
  }

  /** The value of the longest run of digits at the start, `None` when there is
      no digit. */
  function ParseDigitRun(u: string): Option<nat>
  {
    var n := DigitPrefix(u);
    if n == 0 then None else Some(DigitsValue(u[..n]))
  }

  lemma {:induction false} NatToStringValue(n: nat)
    ensures DigitsValue(NatToString(n)) == n
    decreases n
  {
    if n >= 10 {
      NatToStringValue(n / 10);
      var s := NatToString(n);
      assert s[..|s| - 1] == NatToString(n / 10);
    }
  }

  /** `parseInt` stops only at the end of a run made of digits alone. */
  lemma {:induction false} DigitPrefixAll(u: string)
    requires forall i :: 0 <= i < |u| ==> IsDigit(u[i])
    ensures DigitPrefix(u) == |u|
  {
    if |u| > 0 {
      DigitPrefixAll(u[1..]);
    }
  }

  /** Text that starts with a non-space is left as it is by the white-space skip. */
  lemma TrimStartNoSpace(s: string)
    requires |s| > 0 && !IsJsSpace(s[0])
    ensures TrimStart(s) == s
  {
  }

  /** A digit is neither white space nor a sign. */
  lemma DigitNotSpace(ch: char)
    requires IsDigit(ch)
    ensures !IsJsSpace(ch) && ch != '-' && ch != '+'
  {
  }

  /** A run made of digits alone is read whole. */
  lemma DigitRunAll(u: string)
    requires |u| > 0 && forall i :: 0 <= i < |u| ==> IsDigit(u[i])
    ensures ParseDigitRun(u) == Some(DigitsValue(u))
  {
    DigitPrefixAll(u);
    assert u[..|u|] == u;
  }

  /** `parseInt` reads a run of digits as its value. */
  lemma ParseDigits(u: string)
    requires |u| > 0 && forall i :: 0 <= i < |u| ==> IsDigit(u[i])
    ensures ParseInt(u) == Some(DigitsValue(u))
  {
    DigitRunAll(u);
    DigitNotSpace(u[0]);
    TrimStartNoSpace(u);
    assert TrimStart(u) == u;
    assert ParseSigned(u) == Some(DigitsValue(u) as int);
  }

  /** A leading minus sign negates what follows. */
  lemma ParseMinus(u: string)
    ensures ParseDigitRun(u).None? ==> ParseInt("-" + u).None?
    ensures ParseDigitRun(u).Some? ==> ParseInt("-" + u) == Some(-(ParseDigitRun(u).value as int))
  {
    var m := "-" + u;
    assert m[0] == '-' && m[1..] == u;
    TrimStartNoSpace(m);
  }

  /** `parseInt` reads back what `IntToString` writes, sign included. */
  lemma ParseIntToString(n: int)
    ensures ParseInt(IntToString(n)) == Some(n)
  {
    var digits := NatToString(if n < 0 then -n else n);
    NatToStringValue(if n < 0 then -n else n);
    if n < 0 {
      DigitRunAll(digits);
      ParseMinus(digits);
    } else {
      ParseDigits(digits);
    }
  }
}
