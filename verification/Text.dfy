/** The text operations both ends of the command socket rely on: Python's
    str.split, ' '.join and int, and C++'s to_string. */
module Text {

  datatype Option<T> = None | Some(value: T)

  // ------------------------------------------------------ split and join

  /** Whitespace for Python's str.split(). */
  predicate IsSpace(c: char) {
    || '\t' <= c <= '\r' || '\U{1C}' <= c <= ' ' || c == '\U{85}' || c == '\U{A0}' || c == '\U{1680}'
    || '\U{2000}' <= c <= '\U{200A}' || c == '\U{2028}' || c == '\U{2029}' || c == '\U{202F}'
    || c == '\U{205F}' || c == '\U{3000}'
  }

  /** Whitespace for bytes.strip(). */
  predicate IsAsciiSpace(c: char) { '\t' <= c <= '\r' || c == ' ' }

  predicate StartsBlank(s: string) { s == "" || IsSpace(s[0]) }

  predicate IsToken(t: string) { t != "" && forall i :: 0 <= i < |t| ==> !IsSpace(t[i]) }

  function SkipSpaces(s: string): (r: string)
    ensures |r| <= |s| && (r != "" ==> !IsSpace(r[0]))
  {
    if s != "" && IsSpace(s[0]) then SkipSpaces(s[1..]) else s
  }

  function TokenLen(s: string): (n: nat)
    ensures n <= |s| && (n < |s| ==> IsSpace(s[n])) && forall i :: 0 <= i < n ==> !IsSpace(s[i])
  {
    if s == "" || IsSpace(s[0]) then 0 else 1 + TokenLen(s[1..])
  }

  function Split(s: string): (r: seq<string>)
    ensures forall i :: 0 <= i < |r| ==> IsToken(r[i])
    decreases |s|
  {
    var t := SkipSpaces(s);
    if t == "" then [] else
      var n := TokenLen(t);
      assert n > 0;
      [t[..n]] + Split(t[n..])
  }

  function Join(ts: seq<string>): string {
    if ts == [] then "" else if |ts| == 1 then ts[0] else ts[0] + " " + Join(ts[1..])
  }

  /** bytes.strip() */
  function Strip(s: string): string
    decreases |s|
  {
    if s != "" && IsAsciiSpace(s[0]) then Strip(s[1..])
    else if s != "" && IsAsciiSpace(s[|s| - 1]) then Strip(s[..|s| - 1])
    else s
  }

  lemma SplitSkips(s: string)
    requires s != "" && IsSpace(s[0])
    ensures Split(s) == Split(s[1..])
  {
    assert SkipSpaces(s) == SkipSpaces(s[1..]);
  }

  lemma {:induction false} TokenLenOf(t: string, rest: string)
    requires forall i :: 0 <= i < |t| ==> !IsSpace(t[i])
    requires StartsBlank(rest)
    ensures TokenLen(t + rest) == |t|
    decreases |t|
  {
    if t == "" {
      assert t + rest == rest;
    } else {
      TokenLenOf(t[1..], rest);
      assert (t + rest)[1..] == t[1..] + rest;
    }
  }

  /** A token followed by a space or the end comes off whole. */
  lemma SplitToken(s: string, t: string, rest: string)
    requires s == t + rest && IsToken(t) && StartsBlank(rest)
    ensures Split(s) == [t] + Split(rest)
  {
    TokenLenOf(t, rest);
    assert SkipSpaces(s) == s;
    assert s[..|t|] == t && s[|t|..] == rest;
  }

  lemma SkipBoth(x: string, y: string)
    requires x != "" && IsSpace(x[0])
    ensures Split(x) == Split(x[1..]) && Split(x + y) == Split(x[1..] + y)
  {
    SplitSkips(x);
    SplitSkips(x + y);
    assert (x + y)[1..] == x[1..] + y;
  }

  /** Cuts the first word off a string that starts with one. */
  lemma CutWord(x: string) returns (t: string, rest: string)
    requires x != "" && !IsSpace(x[0])
    ensures x == t + rest && |rest| < |x| && IsToken(t) && StartsBlank(rest)
  {
    var n := TokenLen(x);
    t, rest := x[..n], x[n..];
  }

  /** Whitespace is a word boundary: splitting distributes over it. */
  lemma {:induction false} SplitAt(x: string, z: string)
    requires z != "" && StartsBlank(z)
    ensures Split(x + z) == Split(x) + Split(z)
    decreases |x|
  {
    if x == "" {
      assert x + z == z;
    } else if IsSpace(x[0]) {
      SkipBoth(x, z);
      SplitAt(x[1..], z);
    } else {
      var t, rest := CutWord(x);
      SplitAt(rest, z);
      BlankFront(rest, z);
      Associate(t, rest, z);
      SplitWordBefore(x, x + z, t, rest, rest + z, Split(z));
    }
  }

  lemma SplitWordBefore(x: string, w: string, t: string, rest: string, tail: string, words: seq<string>)
    requires x == t + rest && w == t + tail && IsToken(t) && StartsBlank(rest) && StartsBlank(tail)
    requires Split(tail) == Split(rest) + words
    ensures Split(w) == Split(x) + words
  {
    SplitToken(x, t, rest);
    SplitToken(w, t, tail);
    Associate([t], Split(rest), words);
  }

  lemma BlankFront(rest: string, z: string)
    requires StartsBlank(rest) && z != "" && StartsBlank(z)
    ensures StartsBlank(rest + z)
  {
    if rest == "" { assert rest + z == z; }
  }

  lemma Associate<T>(a: seq<T>, b: seq<T>, c: seq<T>)
    ensures a + b + c == a + (b + c)
  {
  }

  lemma SplitBlank(x: string, y: string)
    ensures Split(x + " " + y) == Split(x) + Split(y)
  {
    var z := " " + y;
    assert z[1..] == y && x + " " + y == x + z;
    SplitSkips(z);
    SplitAt(x, z);
  }

  lemma SplitOne(t: string)
    requires IsToken(t)
    ensures Split(t) == [t]
  {
    SplitToken(t, t, "");
  }

  /** Trailing whitespace adds no word. */
  lemma SplitTrailing(s: string, c: char)
    requires IsSpace(c)
    ensures Split(s + [c]) == Split(s)
  {
    SplitAt(s, [c]);
    assert [c][1..] == "";
    SplitSkips([c]);
  }

  lemma AsciiIsSpace(c: char)
    requires IsAsciiSpace(c)
    ensures IsSpace(c)
  {
  }

  lemma {:induction false} SplitStrip(s: string)
    ensures Split(Strip(s)) == Split(s)
    decreases |s|
  {
    if s != "" && IsAsciiSpace(s[0]) {
      SplitStrip(s[1..]);
      AsciiIsSpace(s[0]);
      SplitSkips(s);
    } else if s != "" && IsAsciiSpace(s[|s| - 1]) {
      var front, last := s[..|s| - 1], s[|s| - 1];
      SplitStrip(front);
      AsciiIsSpace(last);
      assert s == front + [last];
      SplitTrailing(front, last);
    }
  }

  predicate AllTokens(ts: seq<string>) { forall i :: 0 <= i < |ts| ==> IsToken(ts[i]) }

  /** Splitting undoes joining. */
  lemma {:induction false} SplitJoin(ts: seq<string>)
    requires AllTokens(ts)
    ensures Split(Join(ts)) == ts
    decreases |ts|
  {
    if |ts| == 1 {
      SplitOne(ts[0]);
    } else if |ts| > 1 {
      SplitBlank(ts[0], Join(ts[1..]));
      SplitOne(ts[0]);
      SplitJoin(ts[1..]);
    }
  }

  // -------------------------------------------------------- normalisation

  function Normalise(s: string): string { Join(Split(s)) }

  lemma NormaliseIdempotent(s: string)
    ensures Normalise(Normalise(s)) == Normalise(s)
  {
    SplitJoin(Split(s));
  }

  /** Single blanks between words, and nowhere else. */
  predicate IsNormal(s: string) {
    && (s != "" ==> !IsSpace(s[0]) && !IsSpace(s[|s| - 1]))
    && forall i :: 0 <= i < |s| && IsSpace(s[i]) ==> s[i] == ' ' && (i + 1 < |s| ==> !IsSpace(s[i + 1]))
  }

  lemma {:induction false} JoinIsNormal(ts: seq<string>)
    requires AllTokens(ts)
    ensures IsNormal(Join(ts)) && (ts != [] ==> Join(ts) != "")
    decreases |ts|
  {
    if |ts| > 1 {
      var t, rest := ts[0], Join(ts[1..]);
      JoinIsNormal(ts[1..]);
      var s := Join(ts);
      assert s == t + " " + rest;
      forall i | 0 <= i < |s| && IsSpace(s[i]) ensures s[i] == ' ' && (i + 1 < |s| ==> !IsSpace(s[i + 1])) {
        if i > |t| {
          assert s[i] == rest[i - |t| - 1];
          if i + 1 < |s| { assert s[i + 1] == rest[i - |t|]; }
        }
      }
      assert s[|s| - 1] == rest[|rest| - 1];
    }
  }

  /** What follows the first word of a normal message, and its blank, is normal. */
  lemma NormalTail(s: string, n: nat)
    requires IsNormal(s) && n < |s| && IsSpace(s[n])
    ensures s[n] == ' ' && n + 1 < |s| && IsNormal(s[n + 1..])
  {
    var tail := s[n + 1..];
    assert !IsSpace(s[|s| - 1]);
    forall i | 0 <= i < |tail| && IsSpace(tail[i])
      ensures tail[i] == ' ' && (i + 1 < |tail| ==> !IsSpace(tail[i + 1]))
    {
      assert tail[i] == s[n + 1 + i];
      if i + 1 < |tail| { assert tail[i + 1] == s[n + 1 + i + 1]; }
    }
    assert tail[0] == s[n + 1] && tail[|tail| - 1] == s[|s| - 1];
  }

  lemma FirstWord(s: string)
    requires s != "" && !IsSpace(s[0])
    ensures var n := TokenLen(s);
            && n > 0 && Split(s) == [s[..n]] + Split(s[n..])
            && (n < |s| ==> Split(s) == [s[..n]] + Split(s[n + 1..]))
  {
    var n := TokenLen(s);
    SplitToken(s, s[..n], s[n..]);
    if n < |s| {
      SplitSkips(s[n..]);
      assert s[n..][1..] == s[n + 1..];
    }
  }

  lemma {:induction false} NormalIsFixed(s: string)
    requires IsNormal(s)
    ensures Normalise(s) == s
    decreases |s|
  {
    if s != "" {
      var n := TokenLen(s);
      FirstWord(s);
      if n < |s| {
        NormalTail(s, n);
        NormalIsFixed(s[n + 1..]);
        JoinMore(s[..n], Split(s[n + 1..]), s[n + 1..]);
        Glue(s, n);
      } else {
        assert s[..n] == s && s[n..] == "";
      }
    }
  }

  lemma Glue(s: string, n: nat)
    requires n < |s| && s[n] == ' '
    ensures s == s[..n] + " " + s[n + 1..]
  {
  }

  lemma JoinMore(t: string, ts: seq<string>, rest: string)
    requires Join(ts) == rest && rest != ""
    ensures Join([t] + ts) == t + " " + rest
  {
    assert ([t] + ts)[1..] == ts;
  }

  /** The identity exactly on normal messages. */
  lemma NormaliseFixesExactlyNormal(s: string)
    ensures Normalise(s) == s <==> IsNormal(s)
  {
    JoinIsNormal(Split(s));
    if IsNormal(s) { NormalIsFixed(s); }
  }

  // ------------------------------------------------------------- numbers

  function Digit(d: nat): char
    requires d < 10
  {
    '0' + d as char
  }

  predicate IsDigit(c: char) { '0' <= c <= '9' }

  function DecNat(n: nat): (r: string)
    ensures r != "" && forall i :: 0 <= i < |r| ==> IsDigit(r[i])
  {
    if n < 10 then [Digit(n)] else DecNat(n / 10) + [Digit(n % 10)]
  }

  /** to_string */
  function Dec(n: int): string { if n < 0 then "-" + DecNat(-n) else DecNat(n) }

  /** The digits of a Python integer literal: single underscores may separate
      digits. */
  function Value(s: string): Option<nat>
    decreases |s|
  {
    if s == "" || !IsDigit(s[|s| - 1]) then None
    else
      var d := (s[|s| - 1] - '0') as nat;
      var p := s[..|s| - 1];
      if p == "" then Some(d)
      else
        var v := Value(if p[|p| - 1] == '_' then p[..|p| - 1] else p);
        if v == None then None else Some(10 * v.value + d)
  }

  /** int(s) for a token s in ASCII. */
  function ParseInt(s: string): Option<int> {
    if s != "" && (s[0] == '-' || s[0] == '+') then
      var v := Value(s[1..]);
      if v == None then None
      else
        var k: int := v.value;
        Some(if s[0] == '-' then -k else k)
    else
      var v := Value(s);
      if v == None then None else Some(v.value as int)
  }

  lemma {:induction false} ValueDec(n: nat)
    ensures Value(DecNat(n)) == Some(n)
    decreases n
  {
    if n >= 10 {
      ValueDec(n / 10);
      var p := DecNat(n / 10);
      assert DecNat(n)[..|p|] == p;
    }
  }

  lemma DecIsToken(n: int)
    ensures IsToken(Dec(n))
  {
  }

  /** int(to_string(n)) is n. */
  lemma ParseDec(n: int)
    ensures ParseInt(Dec(n)) == Some(n)
  {
    ValueDec(if n < 0 then -n else n);
    if n < 0 { assert Dec(n)[1..] == DecNat(-n); }
  }

  // ------------------------------------------- what int accepts and means

  /** Digits, singly separated by underscores. */
  predicate IsNumeral(s: string) {
    && s != "" && IsDigit(s[0]) && IsDigit(s[|s| - 1])
    && (forall i :: 0 <= i < |s| ==> IsDigit(s[i]) || s[i] == '_')
    && (forall i :: 0 < i < |s| && s[i] == '_' ==> s[i - 1] != '_')
  }

  lemma {:induction false} ValueIff(s: string)
    ensures Value(s) != None <==> IsNumeral(s)
    decreases |s|
  {
    if |s| > 1 && IsDigit(s[|s| - 1]) {
      var p := s[..|s| - 1];
      var q := if p[|p| - 1] == '_' then p[..|p| - 1] else p;
      ValueIff(q);
      if IsNumeral(q) { NumeralExtends(s, q); }
      if IsNumeral(s) { NumeralShrinks(s, q); }
    }
  }

  lemma NumeralExtends(s: string, q: string)
    requires |s| > 1 && IsDigit(s[|s| - 1]) && q < s && IsNumeral(q)
    requires |q| == |s| - 1 || (|q| == |s| - 2 && s[|q|] == '_')
    ensures IsNumeral(s)
  {
    forall i | 0 <= i < |s| ensures IsDigit(s[i]) || s[i] == '_' {
      if i < |q| { assert s[i] == q[i]; }
    }
    forall i | 0 < i < |s| && s[i] == '_' ensures s[i - 1] != '_' {
      assert s[i - 1] == q[i - 1];
      if i < |q| { assert s[i] == q[i]; }
    }
  }

  lemma NumeralShrinks(s: string, q: string)
    requires |s| > 1 && IsNumeral(s) && q < s
    requires if s[|s| - 2] == '_' then |q| == |s| - 2 else |q| == |s| - 1
    ensures IsNumeral(q)
  {
    assert q != "" && IsDigit(s[|q| - 1]) && s[|q| - 1] == q[|q| - 1];
  }

  /** int(t) is a number exactly for an optional sign and then at least one
      character, all digits or underscores, a digit first and last, and no two
      underscores together. */
  lemma ParseIntIff(t: string)
    ensures ParseInt(t) != None
       <==> var s := if t != "" && (t[0] == '+' || t[0] == '-') then t[1..] else t;
            && s != "" && '0' <= s[0] <= '9' && '0' <= s[|s| - 1] <= '9'
            && (forall i :: 0 <= i < |s| ==> '0' <= s[i] <= '9' || s[i] == '_')
            && (forall i :: 0 < i < |s| && s[i] == '_' ==> s[i - 1] != '_')
  {
    ValueIff(if t != "" && (t[0] == '+' || t[0] == '-') then t[1..] else t);
  }

  /** And which number: a digit is its own value, one more digit, with or without
      an underscore before it, counts ten times the rest plus its own, a plus
      keeps the number and a minus negates it. */
  lemma ParseIntMeans(s: string, c: char)
    requires '0' <= c <= '9'
    requires s != "" && '0' <= s[0] <= '9' && ParseInt(s) != None
    ensures ParseInt([c]) == Some((c - '0') as int)
    ensures ParseInt(s + [c]) == Some(10 * ParseInt(s).value + (c - '0') as int)
    ensures ParseInt(s + "_" + [c]) == Some(10 * ParseInt(s).value + (c - '0') as int)
    ensures ParseInt("+" + s) == ParseInt(s)
    ensures ParseInt("-" + s) == Some(-ParseInt(s).value)
  {
    ValueIff(s);
    ValueStep(s + [c], s, c);
    ValueStep(s + "_" + [c], s, c);
    assert ("+" + s)[1..] == s && ("-" + s)[1..] == s;
  }

  /** q is what Value looks at when it drops the last digit of t. */
  lemma ValueStep(t: string, q: string, c: char)
    requires IsDigit(c) && q != "" && q[|q| - 1] != '_' && Value(q) != None
    requires t == q + [c] || t == q + "_" + [c]
    ensures Value(t) == Some(10 * Value(q).value + (c - '0') as nat)
  {
    var p := t[..|t| - 1];
    assert t[|t| - 1] == c && p != "";
    if t == q + [c] {
      assert p == q;
    } else {
      assert p == q + "_" && p[..|p| - 1] == q;
    }
  }

  /** to_string prints no sign but a minus, and no leading zero. */
  lemma {:induction false} DecNatCanonical(n: nat)
    ensures DecNat(n)[0] == '0' <==> n == 0
    ensures |DecNat(n)| == 1 <==> n < 10
    decreases n
  {
    if n >= 10 { DecNatCanonical(n / 10); }
  }

  lemma DecCanonical(n: int)
    ensures var s := Dec(n); s != "" && (s[0] == '-' <==> n < 0)
    ensures n >= 0 ==> var s := Dec(n);
              && (forall i :: 0 <= i < |s| ==> '0' <= s[i] <= '9') && (s[0] == '0' ==> s == "0")
    ensures n < 0 ==> Dec(n) == "-" + Dec(-n)
  {
    DecNatCanonical(if n < 0 then -n else n);
  }
}
