/**
 * The pieces of Python's string handling that the colouring code relies on:
 * `int()` applied to a string, and `str.split` on a one-character separator.
 */
module PyText {

  datatype Option<T> = None | Some(value: T)

  /**
   * The ASCII characters Python's `str.isspace` accepts: space, tab, line
   * feed, vertical tab, form feed, carriage return and the four separators
   * 0x1C to 0x1F.
   */
  predicate IsSpace(c: char) {
    c == ' ' || c == '\t' || c == '\n' || c == '\U{000B}' || c == '\U{000C}' || c == '\r'
    || c == '\U{001C}' || c == '\U{001D}' || c == '\U{001E}' || c == '\U{001F}'
  }

  /**
   * The whitespace `int()` skips around a numeral in an ASCII string: space,
   * tab, line feed, vertical tab, form feed and carriage return. The
   * separators 0x1C to 0x1F, which `str.isspace` accepts, are not among them.
   */
  predicate IntSpace(c: char) {
    c == ' ' || c == '\t' || c == '\n' || c == '\U{000B}' || c == '\U{000C}' || c == '\r'
  }

  predicate IsDigit(c: char) {
    '0' <= c <= '9'
  }

  function DigitValue(c: char): (d: int)
    requires IsDigit(c)
    ensures 0 <= d < 10
  {
    c as int - '0' as int
  }

  function DigitChar(d: int): (c: char)
    requires 0 <= d < 10
    ensures IsDigit(c) && DigitValue(c) == d
  {
    ('0' as int + d) as char
  }

  /** s without its leading whitespace. */
  function TrimStart(s: string): (r: string)
    ensures |r| <= |s| && r == s[|s| - |r|..]
    ensures r == [] || !IntSpace(r[0])
    ensures forall i :: 0 <= i < |s| - |r| ==> IntSpace(s[i])
  {
    if s != [] && IntSpace(s[0]) then TrimStart(s[1..]) else s
  }

  /** s without its trailing whitespace. */
  function TrimEnd(s: string): (r: string)
    ensures |r| <= |s| && r == s[..|r|]
    ensures r == [] || !IntSpace(r[|r| - 1])
    ensures forall i :: |r| <= i < |s| ==> IntSpace(s[i])
  {
    if s != [] && IntSpace(s[|s| - 1]) then TrimEnd(s[..|s| - 1]) else s
  }

  function Strip(s: string): string {
    TrimEnd(TrimStart(s))
  }

  /**
   * The digit strings `int()` accepts after the sign: decimal digits, where a
   * single underscore may separate two digits.
   */
  predicate IsDigitGroup(s: string) {
    && |s| > 0 && IsDigit(s[0]) && IsDigit(s[|s| - 1])
    && (forall i :: 0 <= i < |s| ==> IsDigit(s[i]) || s[i] == '_')
    && (forall i :: 0 <= i < |s| - 1 && s[i] == '_' ==> s[i + 1] != '_')
  }

  /** The number a run of digits and underscores spells, read left to right. */
  function DigitsValue(s: string): (n: int)
    requires forall i :: 0 <= i < |s| ==> IsDigit(s[i]) || s[i] == '_'
    ensures n >= 0
  {
    if s == [] then 0
    else
      var init := s[..|s| - 1];
      var last := s[|s| - 1];
      if last == '_' then DigitsValue(init) else DigitsValue(init) * 10 + DigitValue(last)
  }

  /** `int(s)` for a string s: None where Python raises ValueError. */
  function ParseInt(s: string): (r: Option<int>) {
    ParseNumeral(Strip(s))
  }

  /** An optional sign followed by a digit group; no surrounding whitespace. */
  function ParseNumeral(u: string): (r: Option<int>) {
    if u == [] then None
    else
      var negative := u[0] == '-';
      var body := if u[0] == '-' || u[0] == '+' then u[1..] else u;
      if !IsDigitGroup(body) then None
      else
        var n := DigitsValue(body);
        Some(if negative then -n else n)
  }

  /** The decimal numeral of a natural number, most significant digit first. */
  function NaturalString(n: nat): (s: string)
    ensures |s| > 0 && forall i :: 0 <= i < |s| ==> IsDigit(s[i])
  {
    if n < 10 then [DigitChar(n)] else NaturalString(n / 10) + [DigitChar(n % 10)]
  }

  /** `str(n)` for an integer n. */
  function DecimalString(n: int): string {
    if n < 0 then "-" + NaturalString(-n) else NaturalString(n)
  }

  lemma {:induction false} NaturalStringValue(n: nat)
    ensures DigitsValue(NaturalString(n)) == n
  {
    var s := NaturalString(n);
    if n >= 10 {
      NaturalStringValue(n / 10);
      assert s[..|s| - 1] == NaturalString(n / 10);
    }
  }

  lemma StripNoSpace(s: string)
    requires |s| > 0 && !IntSpace(s[0]) && !IntSpace(s[|s| - 1])
    ensures Strip(s) == s
  {
  }

  /** `int(str(n)) == n`: the numeral of every integer parses back to it. */
  lemma ParseDecimalString(n: int)
    ensures ParseInt(DecimalString(n)) == Some(n)
  {
    var s := DecimalString(n);
    var digits := NaturalString(if n < 0 then -n else n);
    NaturalStringValue(if n < 0 then -n else n);
    assert !IntSpace(s[0]) && !IntSpace(s[|s| - 1]);
    StripNoSpace(s);
    if n < 0 {
      assert s[1..] == digits;
    }
  }

  /** Whitespace around the numeral does not change what `int()` returns. */
  lemma ParseIgnoresPadding(pre: string, s: string, post: string)
    requires forall i :: 0 <= i < |pre| ==> IntSpace(pre[i])
    requires forall i :: 0 <= i < |post| ==> IntSpace(post[i])
    ensures ParseInt(pre + s + post) == ParseInt(s)
  {
    StripPadding(pre, s, post);
  }

  /**
   * A leading character that is neither int()'s whitespace, a sign nor a
   * digit makes `int()` fail. Among such characters are the separators 0x1C
   * to 0x1F, although `str.isspace` counts them as whitespace.
   */
  lemma ParseRejectsStray(c: char, s: string)
    requires !IntSpace(c) && !IsDigit(c) && c != '-' && c != '+'
    ensures ParseInt([c] + s) == None
  {
    var t := [c] + s;
    assert TrimStart(t) == t;
    var u := TrimEnd(t);
    assert u != [] && u[0] == c;
  }

  lemma StripPadding(pre: string, s: string, post: string)
    requires forall i :: 0 <= i < |pre| ==> IntSpace(pre[i])
    requires forall i :: 0 <= i < |post| ==> IntSpace(post[i])
    ensures Strip(pre + s + post) == Strip(s)
  {
    assert pre + s + post == pre + (s + post);
    TrimStartPadding(pre, s + post);
    if TrimStart(s) == [] {
      TrimStartAllSpace(s + post);
    } else {
      TrimStartAppend(s, post);
      TrimEndPadding(TrimStart(s), post);
    }
  }

  lemma {:induction false} TrimStartPadding(pre: string, s: string)
    requires forall i :: 0 <= i < |pre| ==> IntSpace(pre[i])
    ensures TrimStart(pre + s) == TrimStart(s)
  {
    if pre != [] {
      assert (pre + s)[0] == pre[0];
      assert (pre + s)[1..] == pre[1..] + s;
      TrimStartPadding(pre[1..], s);
    } else {
      assert pre + s == s;
    }
  }

  lemma {:induction false} TrimEndPadding(s: string, post: string)
    requires forall i :: 0 <= i < |post| ==> IntSpace(post[i])
    ensures TrimEnd(s + post) == TrimEnd(s)
  {
    if post != [] {
      assert (s + post)[|s + post| - 1] == post[|post| - 1];
      assert (s + post)[..|s + post| - 1] == s + post[..|post| - 1];
      TrimEndPadding(s, post[..|post| - 1]);
    } else {
      assert s + post == s;
    }
  }

  /** Trimming the front of s + t leaves t alone once s has a non-space character. */
  lemma {:induction false} TrimStartAppend(s: string, t: string)
    requires TrimStart(s) != []
    ensures TrimStart(s + t) == TrimStart(s) + t
  {
    assert s != [];
    assert (s + t)[0] == s[0];
    if IntSpace(s[0]) {
      assert (s + t)[1..] == s[1..] + t;
      TrimStartAppend(s[1..], t);
    }
  }

  /** A string made of whitespace and nothing else trims to nothing. */
  lemma TrimStartAllSpace(t: string)
    requires forall i :: 0 <= i < |t| ==> IntSpace(t[i])
    ensures TrimStart(t) == []
  {
  }

  /** A parsed string holds at least one digit, and no whitespace inside its numeral. */
  lemma ParsedHasDigit(s: string)
    requires ParseInt(s).Some?
    ensures exists i :: 0 <= i < |s| && IsDigit(s[i])
  {
    var u := Strip(s);
    var k := |TrimStart(s)|;
    assert u == TrimStart(s)[..|u|];
    assert TrimStart(s) == s[|s| - k..];
    var j := if u[0] == '-' || u[0] == '+' then 1 else 0;
    assert IsDigit(u[j]);
    assert s[|s| - k + j] == u[j];
  }

  // ---------------------------------------------------------------------
  // str.split with an explicit one-character separator.

  /** `s.split(sep)`: the pieces between occurrences of sep, empty ones kept. */
  function Split(s: string, sep: char): (parts: seq<string>)
    ensures |parts| > 0
    decreases |s|
  {
    if s == [] then [""]
    else
      var rest := Split(s[1..], sep);
      if s[0] == sep then [""] + rest else [[s[0]] + rest[0]] + rest[1..]
  }

  /** `sep.join(parts)`. */
  function Join(parts: seq<string>, sep: char): string
    requires |parts| > 0
  {
    if |parts| == 1 then parts[0] else parts[0] + [sep] + Join(parts[1..], sep)
  }

  function Count(s: string, c: char): nat {
    if s == [] then 0 else (if s[0] == c then 1 else 0) + Count(s[1..], c)
  }

  /** Splitting loses nothing: joining the pieces with the separator gives s back. */
  lemma {:induction false} JoinSplit(s: string, sep: char)
    ensures Join(Split(s, sep), sep) == s
    decreases |s|
  {
    if s != [] {
      var rest := Split(s[1..], sep);
      JoinSplit(s[1..], sep);
      if s[0] == sep {
        assert Split(s, sep)[1..] == rest;
      } else {
        var parts := Split(s, sep);
        if |rest| == 1 {
          assert parts == [[s[0]] + rest[0]];
        } else {
          assert parts[1..] == rest[1..];
          assert Join(rest, sep) == rest[0] + [sep] + Join(rest[1..], sep);
        }
      }
    }
  }

  /** No piece contains the separator, and there is one piece more than separators. */
  lemma {:induction false} SplitPieces(s: string, sep: char)
    ensures |Split(s, sep)| == Count(s, sep) + 1
    ensures forall k :: 0 <= k < |Split(s, sep)| ==> sep !in Split(s, sep)[k]
    decreases |s|
  {
    if s != [] {
      SplitPieces(s[1..], sep);
      var rest := Split(s[1..], sep);
      var parts := Split(s, sep);
      if s[0] != sep {
        forall k | 0 <= k < |parts|
          ensures sep !in parts[k]
        {
          if k == 0 {
            assert parts[0] == [s[0]] + rest[0];
          } else {
            assert parts[k] == rest[k];
          }
        }
      } else {
        forall k | 0 <= k < |parts|
          ensures sep !in parts[k]
        {
          if k > 0 {
            assert parts[k] == rest[k - 1];
          }
        }
      }
    }
  }

  /** Splitting the join of separator-free pieces gives the pieces back. */
  lemma {:induction false} SplitJoin(parts: seq<string>, sep: char)
    requires |parts| > 0
    requires forall k :: 0 <= k < |parts| ==> sep !in parts[k]
    ensures Split(Join(parts, sep), sep) == parts
    decreases |parts|, |parts[0]|
  {
    if parts[0] != [] {
      var p := parts[0];
      var shorter := [p[1..]] + parts[1..];
      JoinHead(parts, sep);
      ShorterFree(parts, sep);
      SplitJoin(shorter, sep);
      SplitCons(p[0], Join(shorter, sep), sep);
      assert [p[0]] + p[1..] == p;
      assert shorter[1..] == parts[1..];
      assert parts == [p] + parts[1..];
    } else if |parts| > 1 {
      SplitJoin(parts[1..], sep);
      assert Join(parts, sep) == [sep] + Join(parts[1..], sep);
      SplitCons(sep, Join(parts[1..], sep), sep);
      assert parts == [""] + parts[1..];
    }
  }

  /** Split on a text that starts with c. */
  lemma SplitCons(c: char, t: string, sep: char)
    ensures Split([c] + t, sep) ==
      if c == sep then [""] + Split(t, sep) else [[c] + Split(t, sep)[0]] + Split(t, sep)[1..]
  {
    assert ([c] + t)[1..] == t;
  }

  /** The join of pieces whose first is non-empty starts with that piece's first character. */
  lemma JoinHead(parts: seq<string>, sep: char)
    requires |parts| > 0 && parts[0] != []
    ensures Join(parts, sep) == [parts[0][0]] + Join([parts[0][1..]] + parts[1..], sep)
  {
    var p := parts[0];
    var shorter := [p[1..]] + parts[1..];
    assert p == [p[0]] + p[1..];
    if |parts| > 1 {
      assert shorter[1..] == parts[1..];
    }
  }

  /** Dropping the first character of the first piece keeps every piece free of sep. */
  lemma ShorterFree(parts: seq<string>, sep: char)
    requires |parts| > 0 && parts[0] != []
    requires forall k :: 0 <= k < |parts| ==> sep !in parts[k]
    ensures forall k :: 0 <= k < |[parts[0][1..]] + parts[1..]| ==> sep !in ([parts[0][1..]] + parts[1..])[k]
  {
    var shorter := [parts[0][1..]] + parts[1..];
    forall k | 0 <= k < |shorter|
      ensures sep !in shorter[k]
    {
      if k == 0 {
        assert parts[0] == [parts[0][0]] + parts[0][1..];
      } else {
        assert shorter[k] == parts[k];
      }
    }
  }
}
