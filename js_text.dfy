/** The JavaScript built-ins the data pipeline relies on, on strings:
    `undefined`, `String(v)`, `v || d`, `trim`, `split` on one character,
    `includes`, `String(n)` of a natural number and `parseInt(s, 10)`. */
module JsText {

  /** A value that is either `undefined` (None) or present. */
  datatype Option<T> = None | Some(value: T)

  /** `String(v)`: an undefined value prints as "undefined". */
  function ToJsString(v: Option<string>): string
  {
    match v
    case None => "undefined"
    case Some(s) => s
  }

  /** `v || d` for a cell that is a string or undefined: only a non-empty string is truthy. */
  function OrDefault(v: Option<string>, d: string): (r: string)
    ensures v.Some? && v.value != "" ==> r == v.value
    ensures v.None? || v.value == "" ==> r == d
    ensures r == d || v == Some(r)
  {
    if v.Some? && v.value != "" then v.value else d
  }

  // ---------------------------------------------------------------------------
  // String.prototype.trim

  /** The characters `trim` removes: the ECMAScript WhiteSpace and LineTerminator code points. */
  predicate IsWhite(c: char)
  {
    c == '\t' || c == '\n' || c == '\U{000B}' || c == '\U{000C}' || c == '\r' || c == ' '
    || c == '\U{00A0}' || c == '\U{1680}' || ('\U{2000}' <= c <= '\U{200A}')
    || c == '\U{2028}' || c == '\U{2029}' || c == '\U{202F}' || c == '\U{205F}'
    || c == '\U{3000}' || c == '\U{FEFF}'
  }

  predicate AllWhite(s: string)
  {
    forall i :: 0 <= i < |s| ==> IsWhite(s[i])
  }

  /** `s` neither starts nor ends with a white-space character. */
  predicate IsTrimmed(s: string)
  {
    s == [] || (!IsWhite(s[0]) && !IsWhite(s[|s| - 1]))
  }

  /** `s.trimStart()`: drops the longest all-white prefix. */
  function TrimStart(s: string): (r: string)
    ensures |r| <= |s|
    ensures r == [] || !IsWhite(r[0])
  {
    if |s| > 0 && IsWhite(s[0]) then TrimStart(s[1..]) else s
  }

  /** `s.trimEnd()`: drops the longest all-white suffix. */
  function TrimEnd(s: string): (r: string)
    ensures |r| <= |s| && r == s[..|r|]
    ensures r == [] || !IsWhite(r[|r| - 1])
  {
    if |s| > 0 && IsWhite(s[|s| - 1]) then TrimEnd(s[..|s| - 1]) else s
  }

  /** `s.trim()` */
  function Trim(s: string): (r: string)
    ensures IsTrimmed(r)
  {
    TrimEnd(TrimStart(s))
  }

  lemma {:induction false} TrimStartOfWhitePrefix(w: string, u: string)
    requires AllWhite(w)
    requires u == [] || !IsWhite(u[0])
    ensures TrimStart(w + u) == u
  {
    if w != [] {
      assert (w + u)[1..] == w[1..] + u;
      TrimStartOfWhitePrefix(w[1..], u);
    }
  }

  lemma {:induction false} TrimEndOfWhiteSuffix(u: string, w: string)
    requires AllWhite(w)
    requires u == [] || !IsWhite(u[|u| - 1])
    ensures TrimEnd(u + w) == u
  {
    if w != [] {
      assert (u + w)[..|u + w| - 1] == u + w[..|w| - 1];
      TrimEndOfWhiteSuffix(u, w[..|w| - 1]);
    }
  }

  /** `trim` is characterised by its result: whatever white space surrounds a trimmed string is removed, and nothing else. */
  lemma {:induction false} TrimUnique(w1: string, t: string, w2: string)
    requires AllWhite(w1) && AllWhite(w2) && IsTrimmed(t)
    ensures Trim(w1 + t + w2) == t
  {
    if t == [] {
      assert w1 + t + w2 == (w1 + w2) + [];
      TrimStartOfWhitePrefix(w1 + w2, []);
    } else {
      assert w1 + t + w2 == w1 + (t + w2);
      TrimStartOfWhitePrefix(w1, t + w2);
      TrimEndOfWhiteSuffix(t, w2);
    }
  }

  /** `trimStart` drops white space only. */
  lemma {:induction false} TrimStartSplit(s: string) returns (w: string)
    ensures s == w + TrimStart(s) && AllWhite(w)
  {
    if |s| > 0 && IsWhite(s[0]) {
      var t := TrimStart(s[1..]);
      var w' := TrimStartSplit(s[1..]);
      assert TrimStart(s) == t;
      w := [s[0]] + w';
      assert s == [s[0]] + (w' + t);
      assert [s[0]] + (w' + t) == w + t;
      forall i | 0 <= i < |w|
        ensures IsWhite(w[i])
      {
        if i > 0 {
          assert w[i] == w'[i - 1];
        }
      }
    } else {
      w := [];
    }
  }

  /** `trimEnd` drops white space only. */
  lemma {:induction false} TrimEndSplit(s: string) returns (w: string)
    ensures s == TrimEnd(s) + w && AllWhite(w)
  {
    if |s| > 0 && IsWhite(s[|s| - 1]) {
      var t := TrimEnd(s[..|s| - 1]);
      var w' := TrimEndSplit(s[..|s| - 1]);
      assert TrimEnd(s) == t;
      w := w' + [s[|s| - 1]];
      assert s == (t + w') + [s[|s| - 1]];
      assert (t + w') + [s[|s| - 1]] == t + w;
    } else {
      w := [];
    }
  }

  /** `trim` keeps one piece of its argument and drops only white space around it: the
      converse of `TrimUnique`. */
  lemma {:induction false} TrimSplit(s: string) returns (w1: string, w2: string)
    ensures s == w1 + Trim(s) + w2
    ensures AllWhite(w1) && AllWhite(w2)
  {
    w1 := TrimStartSplit(s);
    w2 := TrimEndSplit(TrimStart(s));
  }

  lemma {:induction false} TrimIdempotent(s: string)
    ensures Trim(Trim(s)) == Trim(s)
  {
    assert [] + Trim(s) + [] == Trim(s);
    TrimUnique([], Trim(s), []);
  }

  // ---------------------------------------------------------------------------
  // String.prototype.split with a one-character separator

  /** `s.split(sep)`: the pieces between occurrences of `sep`; there is always at least one. */
  function Split(s: string, sep: char): (r: seq<string>)
    ensures |r| >= 1
    ensures forall i :: 0 <= i < |r| ==> sep !in r[i]
    decreases |s|
  {
    if s == [] then [""]
    else
      var rest := Split(s[1..], sep);
      if s[0] == sep then [""] + rest else [[s[0]] + rest[0]] + rest[1..]
  }

  /** `s.split(sep)` has one more piece than `s` has separators. */
  lemma {:induction false} SplitCount(s: string, sep: char)
    ensures |Split(s, sep)| == multiset(s)[sep] + 1
    decreases |s|
  {
    if s != [] {
      SplitCount(s[1..], sep);
      assert s == [s[0]] + s[1..];
      assert multiset(s) == multiset{s[0]} + multiset(s[1..]);
    }
  }

  /** `parts.join(sep)` */
  function Join(parts: seq<string>, sep: char): string
  {
    if parts == [] then ""
    else if |parts| == 1 then parts[0]
    else parts[0] + [sep] + Join(parts[1..], sep)
  }

  lemma {:induction false} JoinSplit(s: string, sep: char)
    ensures Join(Split(s, sep), sep) == s
    decreases |s|
  {
    if s != [] {
      var rest := Split(s[1..], sep);
      JoinSplit(s[1..], sep);
      if s[0] == sep {
        assert ([""] + rest)[1..] == rest;
        assert s == [sep] + s[1..];
      } else if |rest| == 1 {
        assert s == [s[0]] + s[1..];
      } else {
        assert Join(rest, sep) == rest[0] + [sep] + Join(rest[1..], sep);
        assert ([[s[0]] + rest[0]] + rest[1..])[1..] == rest[1..];
        assert s == [s[0]] + s[1..];
      }
    }
  }

  lemma {:induction false} SplitOfSeparatorFreePrefix(u: string, t: string, sep: char)
    requires sep !in u
    ensures Split(u + t, sep) == [u + Split(t, sep)[0]] + Split(t, sep)[1..]
    decreases |u|
  {
    if u != [] {
      assert (u + t)[1..] == u[1..] + t;
      SplitOfSeparatorFreePrefix(u[1..], t, sep);
      assert [u[0]] + (u[1..] + Split(t, sep)[0]) == u + Split(t, sep)[0];
    } else {
      var r := Split(t, sep);
      assert u + t == t && u + r[0] == r[0];
      assert [r[0]] + r[1..] == r;
    }
  }

  /** Joining pieces that do not contain the separator and splitting again gives the pieces back. */
  lemma {:induction false} SplitJoin(parts: seq<string>, sep: char)
    requires |parts| >= 1
    requires forall i :: 0 <= i < |parts| ==> sep !in parts[i]
    ensures Split(Join(parts, sep), sep) == parts
  {
    if |parts| == 1 {
      assert parts[0] + [] == parts[0];
      SplitOfSeparatorFreePrefix(parts[0], [], sep);
      assert Split([], sep) == [""];
      assert parts[0] + "" == parts[0];
      assert parts == [parts[0]];
    } else {
      var j := Join(parts[1..], sep);
      SplitJoin(parts[1..], sep);
      assert parts[0] + [sep] + j == parts[0] + ([sep] + j);
      assert ([sep] + j)[1..] == j;
      SplitOfSeparatorFreePrefix(parts[0], [sep] + j, sep);
      var r := Split([sep] + j, sep);
      assert r == [""] + Split(j, sep);
      assert r[0] == "" && r[1..] == parts[1..];
      assert parts[0] + "" == parts[0];
      assert parts == [parts[0]] + parts[1..];
    }
  }

  // ---------------------------------------------------------------------------
  // String.prototype.includes

  /** `s.includes(t)` */
  predicate Includes(s: string, t: string)
    decreases |s|
  {
    t <= s || (|s| > 0 && Includes(s[1..], t))
  }

  /** `includes` holds exactly when `t` is a prefix of some suffix of `s`. */
  lemma {:induction false} IncludesIff(s: string, t: string)
    ensures Includes(s, t) <==> exists i :: 0 <= i <= |s| && t <= s[i..]
    decreases |s|
  {
    assert s[0..] == s;
    if |s| > 0 {
      IncludesIff(s[1..], t);
      if Includes(s[1..], t) {
        var i :| 0 <= i <= |s[1..]| && t <= s[1..][i..];
        assert s[1..][i..] == s[i + 1..];
      }
      if exists i :: 0 <= i <= |s| && t <= s[i..] {
        var i :| 0 <= i <= |s| && t <= s[i..];
        if i > 0 {
          assert s[1..][i - 1..] == s[i..];
        }
      }
    }
  }

  // ---------------------------------------------------------------------------
  // String(n) and parseInt(s, 10)

  predicate IsDigit(c: char)
  {
    '0' <= c <= '9'
  }

  predicate AllDigits(s: string)
  {
    forall i :: 0 <= i < |s| ==> IsDigit(s[i])
  }

  function DigitChar(d: nat): (c: char)
    requires d < 10
    ensures IsDigit(c) && c as int - '0' as int == d
  {
    ['0', '1', '2', '3', '4', '5', '6', '7', '8', '9'][d]
  }

  /** `String(n)` for a natural number: its decimal digits, with no leading zero. */
  function DecimalString(n: nat): (r: string)
    ensures |r| >= 1 && AllDigits(r)
    ensures |r| > 1 ==> r[0] != '0'
  {
    if n < 10 then [DigitChar(n)] else DecimalString(n / 10) + [DigitChar(n % 10)]
  }

  /** The value of a string of decimal digits. */
  function DigitsValue(ds: string): nat
    requires AllDigits(ds)
  {
    if ds == [] then 0
    else DigitsValue(ds[..|ds| - 1]) * 10 + (ds[|ds| - 1] as int - '0' as int)
  }

  /** The longest prefix of `s` made of decimal digits. */
  function DigitPrefix(s: string): (r: string)
    ensures r <= s && AllDigits(r)
    ensures |r| == |s| || !IsDigit(s[|r|])
  {
    if |s| > 0 && IsDigit(s[0]) then [s[0]] + DigitPrefix(s[1..]) else []
  }

  /** `parseInt(s, 10)`: leading white space, an optional sign, then the longest run of
      digits; NaN (None) when there is no digit. */
  function ParseInt(s: string): Option<int>
  {
    ParseSigned(TrimStart(s))
  }

  /** What `parseInt` reads after the leading white space. */
  function ParseSigned(t: string): Option<int>
  {
    var negative := |t| > 0 && t[0] == '-';
    var unsigned := if |t| > 0 && (t[0] == '-' || t[0] == '+') then t[1..] else t;
    var ds := DigitPrefix(unsigned);
    var magnitude: int := DigitsValue(ds);
    if ds == [] then None else Some(if negative then -magnitude else magnitude)
  }

  lemma {:induction false} DigitsValueOfDecimal(n: nat)
    ensures DigitsValue(DecimalString(n)) == n
  {
    if n >= 10 {
      DigitsValueOfDecimal(n / 10);
      var r := DecimalString(n);
      assert r[..|r| - 1] == DecimalString(n / 10);
    }
  }

  lemma {:induction false} DigitPrefixOfDigits(ds: string, tail: string)
    requires AllDigits(ds)
    requires tail == [] || !IsDigit(tail[0])
    ensures DigitPrefix(ds + tail) == ds
  {
    if ds != [] {
      assert (ds + tail)[1..] == ds[1..] + tail;
      DigitPrefixOfDigits(ds[1..], tail);
    } else {
      assert ds + tail == tail;
    }
  }

  /** `parseInt` reads a digit run and ignores whatever non-digit text follows it. */
  lemma {:induction false} ParseIntStopsAtNonDigit(ds: string, tail: string)
    requires ds != [] && AllDigits(ds)
    requires tail == [] || !IsDigit(tail[0])
    ensures ParseInt(ds + tail) == Some(DigitsValue(ds))
  {
    var s := ds + tail;
    assert s[0] == ds[0] && IsDigit(s[0]) && !IsWhite(s[0]);
    assert TrimStart(s) == s;
    assert s[0] != '-' && s[0] != '+';
    DigitPrefixOfDigits(ds, tail);
  }

  /** `parseInt(String(n), 10) === n` */
  lemma {:induction false} ParseIntOfDecimal(n: nat)
    ensures ParseInt(DecimalString(n)) == Some(n)
  {
    var d := DecimalString(n);
    assert d + [] == d;
    ParseIntStopsAtNonDigit(d, []);
    DigitsValueOfDecimal(n);
  }

  /** A minus sign before a digit run negates its value. */
  lemma {:induction false} ParseIntOfMinus(ds: string, tail: string)
    requires ds != [] && AllDigits(ds)
    requires tail == [] || !IsDigit(tail[0])
    ensures ParseInt("-" + ds + tail) == Some(-(DigitsValue(ds) as int))
  {
    var s := "-" + ds + tail;
    assert s[0] == '-' && !IsWhite(s[0]);
    assert TrimStart(s) == s;
    assert s[1..] == ds + tail;
    DigitPrefixOfDigits(ds, tail);
  }

  lemma {:induction false} ParseIntOfMinusDigits(ds: string)
    requires ds != [] && AllDigits(ds)
    ensures ParseInt("-" + ds) == Some(-(DigitsValue(ds) as int))
  {
    assert "-" + ds + [] == "-" + ds;
    ParseIntOfMinus(ds, []);
  }

  /** `parseInt("-" + String(n), 10) === -n` */
  lemma {:induction false} ParseIntOfNegative(n: nat)
    ensures ParseInt("-" + DecimalString(n)) == Some(-(n as int))
  {
    DigitsValueOfDecimal(n);
    ParseIntOfMinusDigits(DecimalString(n));
  }

  /** A string whose first non-white character is neither a sign nor a digit reads as NaN
      (so does `String(undefined)`). */
  lemma {:induction false} ParseIntWithoutDigits(w: string, u: string)
    requires AllWhite(w)
    requires u == [] || (!IsWhite(u[0]) && !IsDigit(u[0]) && u[0] != '-' && u[0] != '+')
    ensures ParseInt(w + u) == None
  {
    TrimStartOfWhitePrefix(w, u);
  }

  /** Leading white space does not change what `parseInt` reads. */
  lemma {:induction false} ParseIntAfterWhite(w: string, u: string)
    requires AllWhite(w)
    requires u == [] || !IsWhite(u[0])
    ensures ParseInt(w + u) == ParseInt(u)
  {
    TrimStartOfWhitePrefix(w, u);
    assert TrimStart(u) == u;
  }

  /** A sign before the digit run, which may be empty. */
  lemma {:induction false} ParseIntSigned(c: char, ds: string, tail: string)
    requires c == '-' || c == '+'
    requires AllDigits(ds)
    requires tail == [] || !IsDigit(tail[0])
    ensures ParseInt([c] + ds + tail)
         == if ds == [] then None
            else if c == '-' then Some(-(DigitsValue(ds) as int))
            else Some(DigitsValue(ds))
  {
    var s := [c] + ds + tail;
    assert s == [c] + (ds + tail) && !IsWhite(s[0]);
    assert TrimStart(s) == s;
    assert s[1..] == ds + tail;
    DigitPrefixOfDigits(ds, tail);
  }

  /** `parseInt` on any string, taken apart as leading white space, an optional sign, the
      digit run and the rest: NaN when the run is empty, otherwise the run's value,
      negated after a minus sign only. A sign with no digit after it gives NaN. */
  lemma {:induction false} ParseIntCases(w: string, sign: string, ds: string, tail: string)
    requires AllWhite(w)
    requires sign == "" || sign == "-" || sign == "+"
    requires AllDigits(ds)
    requires tail == [] || !IsDigit(tail[0])
    requires sign == "" && ds == [] ==> tail == [] || (!IsWhite(tail[0]) && tail[0] != '-' && tail[0] != '+')
    ensures ParseInt(w + sign + ds + tail)
         == if ds == [] then None
            else if sign == "-" then Some(-(DigitsValue(ds) as int))
            else Some(DigitsValue(ds))
  {
    var rest := sign + ds + tail;
    assert w + sign + ds + tail == w + rest;
    if sign != "" {
      assert rest == [sign[0]] + ds + tail;
      ParseIntAfterWhite(w, rest);
      ParseIntSigned(sign[0], ds, tail);
    } else if ds != [] {
      assert rest == ds + tail && rest[0] == ds[0];
      ParseIntAfterWhite(w, rest);
      ParseIntStopsAtNonDigit(ds, tail);
    } else {
      assert rest == tail;
      ParseIntWithoutDigits(w, tail);
    }
  }
}
