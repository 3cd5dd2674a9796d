/** The PHP built-ins the related-posts query logic relies on: byte strings,
    loosely typed values, explode/implode, trim with a character list, the
    array union operator `+`, array_unique, the (int) cast, truthiness and
    wp_parse_args. Each is stated for the cases the plugin exercises. */
module Php {

  /** One byte of a PHP string. A PHP string is a sequence of bytes and
      strlen counts them; a character below 256 stands for the byte with
      that value, so ASCII literals can be written directly. */
  type Byte = c: char | c as int < 256

  type Str = seq<Byte>

  const Space: Byte := ' '

  datatype Option<T> = None | Some(value: T)

  /** The dynamically typed values that flow through the plugin's option
      array and through the search client's index lookup. */
  datatype Value =
    | NullV
    | BoolV(b: bool)
    | IntV(i: int)
    | FloatV(r: real)
    | StrV(s: Str)
    | ArrV(items: seq<Value>)
    | ObjV(id: nat)

  /** PHP's conversion of a value to boolean, as used by `if ( $x )`. */
  predicate Truthy(v: Value)
  {
    match v
    case NullV => false
    case BoolV(b) => b
    case IntV(i) => i != 0
    case FloatV(r) => r != 0.0
    case StrV(s) => s != [] && s != "0"
    case ArrV(items) => items != []
    case ObjV(_) => true
  }

  // ---------------------------------------------------------------------
  // explode(' ', $s) and implode(' ', $pieces)
  // ---------------------------------------------------------------------

  /** No piece holds a space. */
  predicate SpaceFree(pieces: seq<Str>)
  {
    forall i :: 0 <= i < |pieces| ==> Space !in pieces[i]
  }

  /** explode(' ', s): the pieces between single spaces. There is always one
      more piece than there are spaces, so "" gives [""] and two adjacent
      spaces give an empty piece. */
  function Explode(s: Str): (pieces: seq<Str>)
    ensures |pieces| >= 1
    ensures SpaceFree(pieces)
    decreases |s|
  {
    if s == [] then [[]]
    else if s[0] == Space then [[]] + Explode(s[1..])
    else
      var rest := Explode(s[1..]);
      [[s[0]] + rest[0]] + rest[1..]
  }

  /** implode(' ', pieces): the pieces with one space between neighbours. */
  function Implode(pieces: seq<Str>): Str
  {
    if |pieces| == 0 then []
    else if |pieces| == 1 then pieces[0]
    else pieces[0] + [Space] + Implode(pieces[1..])
  }

  lemma ImplodeCons(c: Byte, p: Str, rest: seq<Str>)
    ensures Implode([[c] + p] + rest) == [c] + Implode([p] + rest)
  {
    if |rest| > 0 {
      assert ([[c] + p] + rest)[1..] == rest;
      assert ([p] + rest)[1..] == rest;
    }
  }

  /** Joining the pieces of a string puts it back together. */
  lemma {:induction false} ImplodeExplode(s: Str)
    ensures Implode(Explode(s)) == s
    decreases |s|
  {
    if s == [] {
    } else if s[0] == Space {
      var rest := Explode(s[1..]);
      ImplodeExplode(s[1..]);
      assert ([[]] + rest)[1..] == rest;
      assert s == [Space] + s[1..];
    } else {
      var rest := Explode(s[1..]);
      ImplodeExplode(s[1..]);
      ImplodeCons(s[0], rest[0], rest[1..]);
      assert [rest[0]] + rest[1..] == rest;
      assert s == [s[0]] + s[1..];
    }
  }

  lemma {:induction false} ExplodeNoSpace(p: Str)
    requires Space !in p
    ensures Explode(p) == [p]
    decreases |p|
  {
    if p != [] {
      ExplodeNoSpace(p[1..]);
      assert [p[0]] + p[1..] == p;
    }
  }

  lemma {:induction false} ExplodeAfterPiece(p: Str, t: Str)
    requires Space !in p
    ensures Explode(p + [Space] + t) == [p] + Explode(t)
    decreases |p|
  {
    if p == [] {
      assert p + [Space] + t == [Space] + t;
      assert ([Space] + t)[1..] == t;
    } else {
      var s := p + [Space] + t;
      assert s[0] == p[0];
      assert s[1..] == p[1..] + [Space] + t;
      ExplodeAfterPiece(p[1..], t);
      assert [p[0]] + p[1..] == p;
    }
  }

  /** Splitting a joined list gives the list back, provided there is at
      least one piece and no piece holds a space. */
  lemma {:induction false} ExplodeImplode(pieces: seq<Str>)
    requires |pieces| >= 1
    requires SpaceFree(pieces)
    ensures Explode(Implode(pieces)) == pieces
    decreases |pieces|
  {
    if |pieces| == 1 {
      ExplodeNoSpace(pieces[0]);
    } else {
      ExplodeImplode(pieces[1..]);
      ExplodeAfterPiece(pieces[0], Implode(pieces[1..]));
      assert [pieces[0]] + pieces[1..] == pieces;
    }
  }

  // ---------------------------------------------------------------------
  // trim($word, '?.;,"')
  // ---------------------------------------------------------------------

  /** The character list the plugin passes to trim. */
  predicate InTrimSet(c: Byte)
  {
    c == '?' || c == '.' || c == ';' || c == ',' || c == '"'
  }

  /** Every byte of `s` belongs to the trim set. */
  predicate AllInTrimSet(s: Str)
  {
    forall k :: 0 <= k < |s| ==> InTrimSet(s[k])
  }

  /** ltrim: drops the longest prefix made of characters of the set. */
  function TrimLeft(w: Str): (r: Str)
    ensures |r| <= |w|
    decreases |w|
  {
    if w != [] && InTrimSet(w[0]) then TrimLeft(w[1..]) else w
  }

  /** ltrim leaves a suffix of the word, everything it cut is in the set,
      and what remains does not start with a character of the set. */
  lemma {:induction false} TrimLeftCut(w: Str)
    ensures var r := TrimLeft(w);
            var i := |w| - |r|;
            r == w[i..] && AllInTrimSet(w[..i]) && (r == [] || !InTrimSet(r[0]))
    decreases |w|
  {
    if w != [] && InTrimSet(w[0]) {
      var t := w[1..];
      TrimLeftCut(t);
      var i := |w| - |TrimLeft(t)|;
      assert t[i - 1..] == w[i..];
      assert w[..i] == [w[0]] + t[..i - 1];
    } else {
      assert w[..0] == [];
    }
  }

  /** rtrim: drops the longest suffix made of characters of the set. */
  function TrimRight(w: Str): (r: Str)
    ensures |r| <= |w|
    decreases |w|
  {
    if w != [] && InTrimSet(w[|w| - 1]) then TrimRight(w[..|w| - 1]) else w
  }

  /** rtrim leaves a prefix of the word, everything it cut is in the set,
      and what remains does not end with a character of the set. */
  lemma {:induction false} TrimRightCut(w: Str)
    ensures var r := TrimRight(w);
            r == w[..|r|] && AllInTrimSet(w[|r|..]) && (r == [] || !InTrimSet(r[|r| - 1]))
    decreases |w|
  {
    if w != [] && InTrimSet(w[|w| - 1]) {
      var t := w[..|w| - 1];
      TrimRightCut(t);
      var j := |TrimRight(t)|;
      assert t[..j] == w[..j];
      assert w[j..] == t[j..] + [w[|w| - 1]];
    } else {
      assert w[|w|..] == [];
    }
  }

  /** trim(w, '?.;,"'): strips the set from both ends. */
  function Trim(w: Str): (r: Str)
    ensures |r| <= |w|
  {
    TrimRight(TrimLeft(w))
  }

  /** A trimmed word is a slice of the original, and everything cut off on
      either side belongs to the character set. */
  lemma TrimIsSlice(w: Str)
    ensures var i := |w| - |TrimLeft(w)|;
            var j := i + |Trim(w)|;
            j <= |w| && Trim(w) == w[i..j] &&
            AllInTrimSet(w[..i]) && AllInTrimSet(w[j..])
  {
    var l := TrimLeft(w);
    var i := |w| - |l|;
    var r := TrimRight(l);
    var j := i + |r|;
    TrimLeftCut(w);
    TrimRightCut(l);
    assert r == w[i..j] by {
      assert l[..|r|] == w[i..j];
    }
    assert w[j..] == l[|r|..];
  }

  /** Neither end of a trimmed word is a character of the set. */
  lemma TrimEnds(w: Str)
    ensures var r := Trim(w);
            r == [] || (!InTrimSet(r[0]) && !InTrimSet(r[|r| - 1]))
  {
    var l := TrimLeft(w);
    var r := TrimRight(l);
    TrimLeftCut(w);
    TrimRightCut(l);
    if r != [] {
      assert r[0] == l[0];
    }
  }

  /** Trimming leaves a word alone when neither end is in the trim set. */
  lemma TrimUntouched(w: Str)
    requires w != [] && !InTrimSet(w[0]) && !InTrimSet(w[|w| - 1])
    ensures Trim(w) == w
  {
  }

  /** Trimming adds no byte: a byte absent from the word is absent from the
      trimmed word. */
  lemma TrimKeepsOut(w: Str, c: Byte)
    requires c !in w
    ensures c !in Trim(w)
  {
    var l := TrimLeft(w);
    TrimLeftCut(w);
    TrimRightCut(l);
    assert c !in l;
  }

  /** Trimming a trimmed word changes nothing. */
  lemma TrimIdempotent(w: Str)
    ensures Trim(Trim(w)) == Trim(w)
  {
    var t := Trim(w);
    TrimEnds(w);
    if t != [] {
      assert TrimLeft(t) == t;
      assert TrimRight(t) == t;
    }
  }

  // ---------------------------------------------------------------------
  // $left + $right on 0-indexed lists, and array_unique
  // ---------------------------------------------------------------------

  /** The array union operator on two lists with keys 0, 1, 2, ...: the result
      has every key of either side, and a key present on the left keeps the
      left's value. */
  function ArrayUnion<T>(left: seq<T>, right: seq<T>): (r: seq<T>)
    ensures |r| == if |left| >= |right| then |left| else |right|
    ensures forall k :: 0 <= k < |r| ==> r[k] == if k < |left| then left[k] else right[k]
  {
    if |right| <= |left| then left else left + right[|left|..]
  }

  predicate NoDuplicates<T(==)>(s: seq<T>)
  {
    forall i, j :: 0 <= i < j < |s| ==> s[i] != s[j]
  }

  /** The position where x first occurs in s. */
  function FirstIndex<T(==)>(s: seq<T>, x: T): (i: nat)
    requires x in s
    ensures i < |s| && s[i] == x && x !in s[..i]
  {
    if s[0] == x then 0
    else
      var i := FirstIndex(s[1..], x);
      assert s[..i + 1] == [s[0]] + s[1..][..i];
      i + 1
  }

  lemma {:induction false} FirstIndexAppend<T>(s: seq<T>, y: T, x: T)
    requires x in s
    ensures FirstIndex(s + [y], x) == FirstIndex(s, x)
  {
    if s[0] != x {
      assert (s + [y])[1..] == s[1..] + [y];
      FirstIndexAppend(s[1..], y, x);
    }
  }

  lemma FirstIndexLast<T>(s: seq<T>, y: T)
    requires y !in s
    ensures FirstIndex(s + [y], y) == |s|
  {
    var t := s + [y];
    assert t[|s|] == y && t[..|s|] == s;
  }

  /** array_unique on a list of strings: each distinct value once, at its
      first occurrence. */
  function ArrayUnique(s: seq<Str>): (r: seq<Str>)
    ensures forall x :: x in r <==> x in s
    ensures NoDuplicates(r)
    decreases |s|
  {
    if s == [] then []
    else
      var u := ArrayUnique(s[..|s| - 1]);
      var x := s[|s| - 1];
      assert s == s[..|s| - 1] + [x];
      if x in u then u else u + [x]
  }

  /** array_unique leaves a list without repeats as it is. */
  lemma {:induction false} ArrayUniqueOfDistinct(s: seq<Str>)
    requires NoDuplicates(s)
    ensures ArrayUnique(s) == s
    decreases |s|
  {
    if s != [] {
      var p := s[..|s| - 1];
      ArrayUniqueOfDistinct(p);
      assert s[|s| - 1] !in p;
      assert s == p + [s[|s| - 1]];
    }
  }

  /** The survivors of array_unique appear in the order of their first
      occurrences in the input. */
  lemma {:induction false} ArrayUniqueOrder(s: seq<Str>)
    ensures forall i, j :: 0 <= i < j < |ArrayUnique(s)| ==>
              FirstIndex(s, ArrayUnique(s)[i]) < FirstIndex(s, ArrayUnique(s)[j])
    decreases |s|
  {
    if s != [] {
      var p := s[..|s| - 1];
      var x := s[|s| - 1];
      assert s == p + [x];
      ArrayUniqueOrder(p);
      var u := ArrayUnique(p);
      forall k | 0 <= k < |u| ensures FirstIndex(s, u[k]) == FirstIndex(p, u[k]) {
        assert u[k] in p;
        FirstIndexAppend(p, x, u[k]);
      }
      if x in u {
        assert ArrayUnique(s) == u;
      } else {
        FirstIndexLast(p, x);
        var r := u + [x];
        assert r == ArrayUnique(s);
        forall i, j | 0 <= i < j < |r| ensures FirstIndex(s, r[i]) < FirstIndex(s, r[j]) {
          assert r[i] == u[i];
          assert FirstIndex(s, r[i]) == FirstIndex(p, u[i]) < |p|;
          if j < |u| {
            assert r[j] == u[j];
            assert FirstIndex(s, r[j]) == FirstIndex(p, u[j]);
            assert FirstIndex(p, u[i]) < FirstIndex(p, u[j]);
          } else {
            assert r[j] == x;
          }
        }
      }
    }
  }

  // ---------------------------------------------------------------------
  // (int) casts
  // ---------------------------------------------------------------------

  predicate IsDigit(c: Byte)
  {
    '0' <= c <= '9'
  }

  /** The whitespace PHP skips before a number: space, \t, \n, \r, \v, \f. */
  predicate IsNumericSpace(c: Byte)
  {
    c == ' ' || c == '\t' || c == '\n' || c == '\r' || c == 11 as char || c == 12 as char
  }

  /** The longest prefix of s made of decimal digits. */
  function DigitPrefix(s: Str): (d: Str)
    ensures |d| <= |s| && d == s[..|d|]
    ensures forall k :: 0 <= k < |d| ==> IsDigit(d[k])
    ensures |d| == |s| || !IsDigit(s[|d|])
  {
    if s != [] && IsDigit(s[0]) then [s[0]] + DigitPrefix(s[1..]) else []
  }

  /** The number written by a string of decimal digits. */
  function DecimalValue(d: Str): (n: nat)
    requires forall k :: 0 <= k < |d| ==> IsDigit(d[k])
  {
    if d == [] then 0
    else
      var last := d[|d| - 1];
      assert IsDigit(last);
      10 * DecimalValue(d[..|d| - 1]) + (last as int - '0' as int)
  }

  function SkipNumericSpace(s: Str): (r: Str)
    ensures |r| <= |s| && r == s[|s| - |r|..]
    ensures r == [] || !IsNumericSpace(r[0])
  {
    if s != [] && IsNumericSpace(s[0]) then SkipNumericSpace(s[1..]) else s
  }

  /** (int) of a string: leading whitespace, an optional sign and the
      leading decimal digits; anything after them is ignored, and a string
      without leading digits gives 0. */
  function StrToInt(s: Str): int
  {
    SignedValue(SkipNumericSpace(s))
  }

  /** The value of an optional sign followed by the leading digits. */
  function SignedValue(t: Str): int
  {
    if t != [] && t[0] == '-' then -(DecimalValue(DigitPrefix(t[1..])) as int)
    else if t != [] && t[0] == '+' then DecimalValue(DigitPrefix(t[1..]))
    else DecimalValue(DigitPrefix(t))
  }

  /** The decimal digits of n, most significant first, as PHP prints a
      non-negative integer. */
  function DecimalString(n: nat): (d: Str)
    ensures |d| >= 1 && forall k :: 0 <= k < |d| ==> IsDigit(d[k])
  {
    var last := ((n % 10) + '0' as int) as char;
    if n < 10 then [last] else DecimalString(n / 10) + [last]
  }

  lemma {:induction false} DecimalRoundTrip(n: nat)
    ensures DecimalValue(DecimalString(n)) == n
  {
    var d := DecimalString(n);
    if n >= 10 {
      DecimalRoundTrip(n / 10);
      assert d[..|d| - 1] == DecimalString(n / 10);
    }
  }

  lemma {:induction false} DigitPrefixOfDigits(d: Str, rest: Str)
    requires forall k :: 0 <= k < |d| ==> IsDigit(d[k])
    requires rest == [] || !IsDigit(rest[0])
    ensures DigitPrefix(d + rest) == d
    decreases |d|
  {
    if d != [] {
      assert (d + rest)[1..] == d[1..] + rest;
      DigitPrefixOfDigits(d[1..], rest);
      assert [d[0]] + d[1..] == d;
    }
  }

  /** (int) of a value. An object cannot be converted; PHP warns and gives 1. */
  function IntCast(v: Value): int
  {
    match v
    case NullV => 0
    case BoolV(b) => if b then 1 else 0
    case IntV(i) => i
    case FloatV(r) => if r >= 0.0 then r.Floor else -((-r).Floor)
    case StrV(s) => StrToInt(s)
    case ArrV(items) => if items == [] then 0 else 1
    case ObjV(_) => 1
  }

  /** (int) on a float drops the fractional part: the result lies between
      zero and the float, less than one away from it (2.9 gives 2, -2.9
      gives -2). */
  lemma IntCastOfFloat(r: real)
    ensures var n := IntCast(FloatV(r));
            (r >= 0.0 ==> 0 <= n && n as real <= r < n as real + 1.0) &&
            (r < 0.0 ==> n <= 0 && n as real - 1.0 < r <= n as real)
  {
  }

  lemma SkipNumericSpaceNone(t: Str)
    requires t != [] && !IsNumericSpace(t[0])
    ensures SkipNumericSpace(t) == t
  {
  }

  lemma SignedValueOfDigits(d: Str, rest: Str)
    requires |d| >= 1 && forall k :: 0 <= k < |d| ==> IsDigit(d[k])
    requires rest == [] || !IsDigit(rest[0])
    ensures SignedValue(d + rest) == DecimalValue(d)
  {
    var t := d + rest;
    assert t[0] == d[0] && IsDigit(d[0]);
    DigitPrefixOfDigits(d, rest);
  }

  lemma SignedValueOfNegativeDigits(d: Str, rest: Str)
    requires forall k :: 0 <= k < |d| ==> IsDigit(d[k])
    requires rest == [] || !IsDigit(rest[0])
    ensures SignedValue(['-'] + (d + rest)) == -(DecimalValue(d) as int)
  {
    var t := d + rest;
    var m := ['-'] + t;
    assert m[1..] == t;
    DigitPrefixOfDigits(d, rest);
    assert DigitPrefix(m[1..]) == d;
  }

  lemma SkipNumericSpaceOfNumber(d: Str, rest: Str)
    requires |d| >= 1 && IsDigit(d[0])
    ensures SkipNumericSpace(d + rest) == d + rest
    ensures SkipNumericSpace(['-'] + (d + rest)) == ['-'] + (d + rest)
  {
    SkipNumericSpaceNone(d + rest);
    SkipNumericSpaceNone(['-'] + (d + rest));
  }

  /** Casting the decimal text of a number, optionally signed and followed
      by text that does not start with a digit, gives that number back. */
  lemma IntCastOfDecimalText(n: nat, rest: Str)
    requires rest == [] || !IsDigit(rest[0])
    ensures IntCast(StrV(DecimalString(n) + rest)) == n
    ensures IntCast(StrV(['-'] + (DecimalString(n) + rest))) == -(n as int)
  {
    var d := DecimalString(n);
    SkipNumericSpaceOfNumber(d, rest);
    SignedValueOfDigits(d, rest);
    SignedValueOfNegativeDigits(d, rest);
    DecimalRoundTrip(n);
  }

  /** The text PHP gives for an integer: its decimal digits, after a minus
      sign when it is negative. */
  function IntString(n: int): Str
  {
    if n >= 0 then DecimalString(n) else ['-'] + DecimalString(-n)
  }

  /** (int) undoes the conversion of an integer to text, for every integer,
      negative ones included. */
  lemma IntCastOfIntString(n: int)
    ensures IntCast(StrV(IntString(n))) == n
  {
    var m := if n >= 0 then n else -n;
    IntCastOfDecimalText(m, []);
    assert DecimalString(m) + [] == DecimalString(m);
  }

  // ---------------------------------------------------------------------
  // wp_parse_args
  // ---------------------------------------------------------------------

  /** wp_parse_args($args, $defaults) for an array of arguments: every key of
      either array, the caller's value winning over the default. */
  function ParseArgs(args: map<Str, Value>, defaults: map<Str, Value>): (r: map<Str, Value>)
    ensures r.Keys == args.Keys + defaults.Keys
    ensures forall k :: k in args ==> r[k] == args[k]
    ensures forall k :: k in defaults && k !in args ==> r[k] == defaults[k]
  {
    defaults + args
  }
}
