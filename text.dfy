/**
 * Text as the source handles it: Rust `str` values are UTF-8 byte strings, and
 * every operation the core applies to them (`contains`, `ends_with`, `find`,
 * `split`, `replace`, `len`, `lines`, integer `parse` and `to_string`) works on
 * those bytes, so text is modelled as a sequence of bytes.
 */
module Text {
  import opened Wrappers
  import opened Bytes

  type Text = seq<byte>

  const NUL: byte := 0
  const TAB: byte := 9
  const LF: byte := 10
  const CR: byte := 13
  const QUOTE: byte := 34
  const PLUS: byte := 43
  const COMMA: byte := 44
  const MINUS: byte := 45
  const ZERO: byte := 48
  const BACKSLASH: byte := 92
  const CARET: byte := 94
  const PIPE: byte := 124

  /** The ASCII characters that `char::is_whitespace` accepts. */
  const WHITESPACE: set<byte> := {9, 10, 11, 12, 13, 32}

  /** No tab, line feed or carriage return: text that stays one field of one line. */
  predicate Unseparated(b: Text)
  {
    TAB !in b && LF !in b && CR !in b
  }

  // ---------------------------------------------------------------------------
  // Trimming (`trim_start_matches`, `trim_end_matches`, `trim`)

  /** Drops every leading byte that belongs to `drop`. */
  function TrimStartBy(s: Text, drop: set<byte>): (r: Text)
    ensures |r| <= |s| && r == s[|s| - |r|..]
    ensures forall i :: 0 <= i < |s| - |r| ==> s[i] in drop
    ensures r != [] ==> r[0] !in drop
    decreases |s|
  {
    if s != [] && s[0] in drop then TrimStartBy(s[1..], drop) else s
  }

  /** Drops every trailing byte that belongs to `drop`. */
  function TrimEndBy(s: Text, drop: set<byte>): (r: Text)
    ensures |r| <= |s| && r == s[..|r|]
    ensures forall i :: |r| <= i < |s| ==> s[i] in drop
    ensures r != [] ==> r[|r| - 1] !in drop
    decreases |s|
  {
    if s != [] && s[|s| - 1] in drop then TrimEndBy(s[..|s| - 1], drop) else s
  }

  /** `str::trim`: whitespace removed from both ends. */
  function Trim(s: Text): Text
  {
    TrimEndBy(TrimStartBy(s, WHITESPACE), WHITESPACE)
  }

  /** A text that starts and ends with a byte that is not whitespace is its own trim. */
  lemma TrimKeeps(s: Text)
    requires s != [] && s[0] !in WHITESPACE && s[|s| - 1] !in WHITESPACE
    ensures Trim(s) == s
  {
  }

  /** Trimming a text whose first byte is not whitespace leaves something. */
  lemma TrimNonEmpty(s: Text)
    requires s != [] && s[0] !in WHITESPACE
    ensures Trim(s) != []
  {
    assert TrimStartBy(s, WHITESPACE) == s;
  }

  /** A line feed after such a text is trimmed away. */
  lemma TrimLineFeed(s: Text)
    requires s != [] && s[0] !in WHITESPACE && s[|s| - 1] !in WHITESPACE
    ensures Trim(s + [LF]) == s
  {
    var t := s + [LF];
    assert TrimStartBy(t, WHITESPACE) == t;
    assert t[..|t| - 1] == s;
    assert TrimEndBy(t, WHITESPACE) == TrimEndBy(s, WHITESPACE);
    assert TrimEndBy(s, WHITESPACE) == s;
  }

  /** Trimming the end of a trimmed string changes nothing. */
  lemma TrimEndOfTrimmed(s: Text)
    ensures TrimEndBy(Trim(s), WHITESPACE) == Trim(s)
  {
  }

  // ---------------------------------------------------------------------------
  // Searching (`starts_with`, `ends_with`, `find`, `contains`)

  predicate OccursAt(s: Text, p: Text, i: int)
  {
    0 <= i && i + |p| <= |s| && s[i..i + |p|] == p
  }

  predicate StartsWith(s: Text, p: Text)
  {
    |p| <= |s| && s[..|p|] == p
  }

  predicate EndsWith(s: Text, p: Text)
  {
    |p| <= |s| && s[|s| - |p|..] == p
  }

  lemma OccursShift(s: Text, p: Text, j: int)
    requires s != [] && 1 <= j
    ensures OccursAt(s, p, j) <==> OccursAt(s[1..], p, j - 1)
  {
    if j + |p| <= |s| {
      assert s[1..][j - 1..j - 1 + |p|] == s[j..j + |p|];
    }
  }

  /** `str::find`: the first position at which `p` occurs in `s`. */
  function Find(s: Text, p: Text): (r: Option<nat>)
    ensures r.Some? ==> OccursAt(s, p, r.value)
    ensures r.Some? ==> forall j :: 0 <= j < r.value ==> !OccursAt(s, p, j)
    ensures r.None? ==> forall j :: !OccursAt(s, p, j)
    decreases |s|
  {
    if |p| > |s| then None
    else if s[..|p|] == p then Some(0)
    else
      var rest := Find(s[1..], p);
      assert !OccursAt(s, p, 0) by { assert s[0..|p|] == s[..|p|]; }
      assert forall j :: 1 <= j ==> (OccursAt(s, p, j) <==> OccursAt(s[1..], p, j - 1)) by {
        forall j | 1 <= j { OccursShift(s, p, j); }
      }
      match rest
      case None => None
      case Some(i) => Some(i + 1)
  }

  /** `str::contains`. */
  /** `str::contains`: `p` occurs somewhere in `s`. */
  predicate Contains(s: Text, p: Text)
    decreases |s|
  {
    StartsWith(s, p) || (s != [] && Contains(s[1..], p))
  }

  /** Containment is exactly a successful search. */
  lemma {:induction false} ContainsFind(s: Text, p: Text)
    ensures Contains(s, p) <==> Find(s, p).Some?
    decreases |s|
  {
    if s != [] && !StartsWith(s, p) {
      ContainsFind(s[1..], p);
    }
  }

  lemma ContainsIff(s: Text, p: Text)
    ensures Contains(s, p) <==> exists j :: OccursAt(s, p, j)
  {
    ContainsFind(s, p);
  }

  /** A slice of a slice is a slice of the whole. */
  lemma SliceOfSlice(s: Text, lo: nat, hi: nat, a: nat, b: nat)
    requires lo <= hi <= |s| && a <= b <= hi - lo
    ensures s[lo..hi][a..b] == s[lo + a..lo + b]
  {
    var u := s[lo..hi][a..b];
    var v := s[lo + a..lo + b];
    forall k | 0 <= k < b - a
      ensures u[k] == v[k]
    {
    }
  }

  /** A text that occurs inside a part of `s` also occurs in `s`. */
  lemma ContainsSlice(s: Text, lo: nat, hi: nat, p: Text)
    requires lo <= hi <= |s|
    requires Contains(s[lo..hi], p)
    ensures Contains(s, p)
  {
    ContainsFind(s[lo..hi], p);
    var t := s[lo..hi];
    var j := Find(t, p).value;
    assert OccursAt(t, p, j);
    SliceOfSlice(s, lo, hi, j, j + |p|);
    assert OccursAt(s, p, lo + j);
    ContainsIff(s, p);
  }

  // ---------------------------------------------------------------------------
  // Splitting and joining on one separator byte (`split(char)`, `join`)

  /** Position of the first `b` in `s`. */
  function IndexOf(s: Text, b: byte): (i: nat)
    requires b in s
    ensures i < |s| && s[i] == b && b !in s[..i]
  {
    if s[0] == b then 0 else 1 + IndexOf(s[1..], b)
  }

  lemma IndexOfUnique(s: Text, b: byte, i: nat)
    requires i < |s| && s[i] == b && b !in s[..i]
    ensures IndexOf(s, b) == i
  {
  }

  function Join(parts: seq<Text>, sep: byte): Text
    decreases |parts|
  {
    if |parts| == 0 then []
    else if |parts| == 1 then parts[0]
    else parts[0] + [sep] + Join(parts[1..], sep)
  }

  /** `str::split(sep)`: the pieces between separators, never fewer than one. */
  function Split(s: Text, sep: byte): (parts: seq<Text>)
    ensures |parts| >= 1
    ensures forall i :: 0 <= i < |parts| ==> sep !in parts[i]
    ensures Join(parts, sep) == s
    decreases |s|
  {
    if sep !in s then [s]
    else
      var i := IndexOf(s, sep);
      var rest := Split(s[i + 1..], sep);
      assert ([s[..i]] + rest)[1..] == rest;
      assert s == s[..i] + [sep] + s[i + 1..];
      [s[..i]] + rest
  }

  /** Splitting undoes joining when no part contains the separator. */
  lemma {:induction false} SplitJoin(parts: seq<Text>, sep: byte)
    requires |parts| >= 1
    requires forall i :: 0 <= i < |parts| ==> sep !in parts[i]
    ensures Split(Join(parts, sep), sep) == parts
    decreases |parts|
  {
    if |parts| > 1 {
      var s := Join(parts, sep);
      assert s == parts[0] + [sep] + Join(parts[1..], sep);
      assert s[|parts[0]|] == sep;
      assert s[..|parts[0]|] == parts[0];
      IndexOfUnique(s, sep, |parts[0]|);
      assert s[|parts[0]| + 1..] == Join(parts[1..], sep);
      SplitJoin(parts[1..], sep);
    }
  }

  /** Joining `n + 1` parts with separators yields `n` separators. */
  lemma {:induction false} JoinLength(parts: seq<Text>, sep: byte)
    requires |parts| >= 1
    ensures |Join(parts, sep)| == Sum(parts) + |parts| - 1
    decreases |parts|
  {
    if |parts| > 1 {
      JoinLength(parts[1..], sep);
    }
  }

  /** A byte that is neither the separator nor in any part is not in their join. */
  lemma {:induction false} JoinFree(parts: seq<Text>, sep: byte, b: byte)
    requires b != sep
    requires forall i :: 0 <= i < |parts| ==> b !in parts[i]
    ensures b !in Join(parts, sep)
    decreases |parts|
  {
    if |parts| > 1 {
      JoinFree(parts[1..], sep, b);
    }
  }

  /** A join begins with its first part. */
  lemma JoinFirst(parts: seq<Text>, sep: byte)
    requires |parts| >= 1 && parts[0] != []
    ensures Join(parts, sep) != [] && Join(parts, sep)[0] == parts[0][0]
  {
  }

  /** A join ends with its last part. */
  lemma {:induction false} JoinLast(parts: seq<Text>, sep: byte)
    requires |parts| >= 1 && parts[|parts| - 1] != []
    ensures EndsWith(Join(parts, sep), parts[|parts| - 1])
    decreases |parts|
  {
    if |parts| > 1 {
      JoinLast(parts[1..], sep);
      var j := Join(parts[1..], sep);
      var s := Join(parts, sep);
      assert s == parts[0] + [sep] + j;
      assert s[|s| - |j|..] == j;
      var last := parts[|parts| - 1];
      assert j[|j| - |last|..] == last;
      assert s[|s| - |last|..] == j[|j| - |last|..];
    }
  }

  function Sum(parts: seq<Text>): nat
  {
    if parts == [] then 0 else |parts[0]| + Sum(parts[1..])
  }

  // ---------------------------------------------------------------------------
  // Byte replacement (`replace` with one-character patterns)

  function Replace(s: Text, from: byte, to: byte): Text
  {
    seq(|s|, i requires 0 <= i < |s| => if s[i] == from then to else s[i])
  }

  /** Replacing `from` by `to` and back restores any text that had no `to`. */
  lemma ReplaceRoundTrip(s: Text, from: byte, to: byte)
    requires to !in s
    ensures Replace(Replace(s, from, to), to, from) == s
  {
  }

  /** After a replacement no `from` is left. */
  lemma ReplaceRemoves(s: Text, from: byte, to: byte)
    requires from != to
    ensures from !in Replace(s, from, to)
  {
  }

  lemma ReplaceAbsent(s: Text, from: byte, to: byte)
    requires from !in s
    ensures Replace(s, from, to) == s
  {
  }

  lemma ReplaceSlice(s: Text, from: byte, to: byte, k: nat)
    requires k <= |s|
    ensures Replace(s, from, to)[..k] == Replace(s[..k], from, to)
  {
  }

  // ---------------------------------------------------------------------------
  // Lines (`BufRead::lines`, `writeln!`)

  /** One trailing carriage return removed, as `lines()` does for a CRLF ending. */
  function StripCr(line: Text): Text
  {
    if line != [] && line[|line| - 1] == CR then line[..|line| - 1] else line
  }

  /**
   * `BufRead::lines`: the text cut at every line feed, with the line feed and a
   * carriage return just before it removed; no empty line follows a final line
   * feed.
   */
  function Lines(t: Text): (ls: seq<Text>)
    ensures forall i :: 0 <= i < |ls| ==> LF !in ls[i]
    decreases |t|
  {
    if t == [] then []
    else if LF !in t then [t]
    else
      var i := IndexOf(t, LF);
      [StripCr(t[..i])] + Lines(t[i + 1..])
  }

  /** The text that `writeln!` produces for each line in turn. */
  function Unlines(ls: seq<Text>): Text
  {
    if ls == [] then [] else ls[0] + [LF] + Unlines(ls[1..])
  }

  /** Writing one more line appends it and its line feed. */
  lemma {:induction false} UnlinesSnoc(ls: seq<Text>, l: Text)
    ensures Unlines(ls + [l]) == Unlines(ls) + l + [LF]
    decreases |ls|
  {
    if ls == [] {
      assert Unlines([l]) == l + [LF] + Unlines([]);
    } else {
      var rest := ls[1..];
      assert (ls + [l])[1..] == rest + [l];
      UnlinesSnoc(rest, l);
      calc {
        Unlines(ls + [l]);
        ls[0] + [LF] + Unlines(rest + [l]);
        ls[0] + [LF] + (Unlines(rest) + l + [LF]);
        ls[0] + [LF] + Unlines(rest) + l + [LF];
        Unlines(ls) + l + [LF];
      }
    }
  }

  /** A single-line text: no line feed, and no carriage return that `lines()` could take for a CRLF ending. */
  predicate IsLine(l: Text)
  {
    LF !in l && (l == [] || l[|l| - 1] != CR)
  }

  /** Reading back the lines that were written yields them unchanged. */
  lemma {:induction false} LinesUnlines(ls: seq<Text>)
    requires forall i :: 0 <= i < |ls| ==> IsLine(ls[i])
    ensures Lines(Unlines(ls)) == ls
    decreases |ls|
  {
    hide IndexOf;
    if ls != [] {
      var t := Unlines(ls);
      assert t == ls[0] + [LF] + Unlines(ls[1..]);
      assert t[|ls[0]|] == LF;
      assert t[..|ls[0]|] == ls[0];
      IndexOfUnique(t, LF, |ls[0]|);
      assert t[|ls[0]| + 1..] == Unlines(ls[1..]);
      assert StripCr(ls[0]) == ls[0];
      LinesUnlines(ls[1..]);
    }
  }

  // ---------------------------------------------------------------------------
  // Decimal integers (`to_string`, `str::parse`)

  predicate IsDigit(b: byte)
  {
    ZERO <= b <= ZERO + 9
  }

  predicate AllDigits(s: Text)
  {
    forall i :: 0 <= i < |s| ==> IsDigit(s[i])
  }

  /** The number that a string of decimal digits denotes. */
  function DigitsValue(s: Text): nat
    requires AllDigits(s)
    decreases |s|
  {
    if s == [] then 0 else 10 * DigitsValue(s[..|s| - 1]) + (s[|s| - 1] - ZERO)
  }

  /** `to_string` of an unsigned integer: its shortest decimal digits. */
  function NatToDecimal(n: nat): (r: Text)
    ensures |r| >= 1 && AllDigits(r)
    ensures DigitsValue(r) == n
    ensures |r| > 1 ==> r[0] != ZERO
  {
    if n < 10 then [ZERO + n]
    else
      var r := NatToDecimal(n / 10) + [ZERO + n % 10];
      assert r[..|r| - 1] == NatToDecimal(n / 10);
      r
  }

  /** `to_string` of a signed integer. */
  function IntToDecimal(v: int): (r: Text)
    ensures r != []
  {
    if v < 0 then [MINUS] + NatToDecimal(-v) else NatToDecimal(v)
  }

  /** Digits after an optional sign, and whether that sign was `-`. */
  function UnsignedDigits(s: Text): Text
  {
    if s != [] && s[0] == PLUS then s[1..] else s
  }

  /** `str::parse::<u8>()`: an optional `+`, then at least one digit, value below 256. */
  function ParseU8(s: Text): (r: Option<nat>)
    ensures r.Some? ==> r.value < 256
  {
    var d := UnsignedDigits(s);
    if d == [] || !AllDigits(d) then None
    else if DigitsValue(d) < 256 then Some(DigitsValue(d))
    else None
  }

  /** `str::parse::<i32>()`: an optional sign, then at least one digit, value in range. */
  function ParseI32(s: Text): (r: Option<int>)
    ensures r.Some? ==> I32_MIN <= r.value <= I32_MAX
  {
    if s != [] && s[0] == MINUS then
      var d := s[1..];
      if d == [] || !AllDigits(d) then None
      else
        var v: int := -(DigitsValue(d) as int);
        if v >= I32_MIN then Some(v) else None
    else
      var d := UnsignedDigits(s);
      if d == [] || !AllDigits(d) then None
      else if DigitsValue(d) <= I32_MAX then Some(DigitsValue(d))
      else None
  }

  lemma ParseU8Format(n: nat)
    requires n < 256
    ensures ParseU8(NatToDecimal(n)) == Some(n)
  {
  }

  lemma ParseI32Format(v: int)
    requires I32_MIN <= v <= I32_MAX
    ensures ParseI32(IntToDecimal(v)) == Some(v)
  {
    if v < 0 {
      assert ([MINUS] + NatToDecimal(-v))[1..] == NatToDecimal(-v);
    }
  }

  /** Decimal text holds no separator that the table formats use, and starts and ends with no whitespace. */
  lemma DecimalHasNoSeparators(v: int)
    ensures TAB !in IntToDecimal(v) && LF !in IntToDecimal(v) && CR !in IntToDecimal(v) && PIPE !in IntToDecimal(v)
    ensures IntToDecimal(v)[0] !in WHITESPACE && IntToDecimal(v)[|IntToDecimal(v)| - 1] !in WHITESPACE
    ensures IntToDecimal(v)[0] != QUOTE
  {
    var d := NatToDecimal(if v < 0 then -v else v);
    assert IsDigit(d[|d| - 1]);
    assert forall i :: 0 <= i < |d| ==> IsDigit(d[i]);
  }
}
