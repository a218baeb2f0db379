/** The class-name scale parser `getScale`: a box's class attribute such as
    "square square_2_3" names its span in cells.  The class list is split on
    spaces; the first token that contains the separator and whose second
    field is a non-zero number decides the span. */
module Scales {
  import opened Geometry

  datatype Option<T> = None | Some(value: T)

  /** `sep` occurs in `s` starting at index `k`. */
  predicate OccursAt(s: string, sep: string, k: nat)
  {
    k + |sep| <= |s| && s[k..k + |sep|] == sep
  }

  /** Index of the first occurrence of `sep` in `s` at or after `from`, if any. */
  function IndexFrom(s: string, sep: string, from: nat): (r: Option<nat>)
    ensures r.Some? ==> from <= r.value && OccursAt(s, sep, r.value)
    ensures r.Some? ==> forall k :: from <= k < r.value ==> !OccursAt(s, sep, k)
    ensures r.None? ==> forall k :: from <= k ==> !OccursAt(s, sep, k)
    decreases |s| - from
  {
    if from + |sep| > |s| then None
    else if OccursAt(s, sep, from) then Some(from)
    else IndexFrom(s, sep, from + 1)
  }

  /** Index of the first occurrence of `sep` in `s`, if any. */
  function IndexOf(s: string, sep: string): Option<nat>
  {
    IndexFrom(s, sep, 0)
  }

  /** `match(sep)` with a literal separator: the token contains it. */
  predicate Contains(s: string, sep: string)
  {
    IndexOf(s, sep).Some?
  }

  /** `split(sep)`: the pieces between occurrences of `sep`, in order; the
      empty separator splits into single characters. */
  function Split(s: string, sep: string): (parts: seq<string>)
    ensures sep != [] ==> |parts| >= 1
  {
    if sep == [] then seq(|s|, k requires 0 <= k < |s| => [s[k]]) else SplitOn(s, sep)
  }

  /** Splitting on a non-empty separator: the piece before its first
      occurrence, then the pieces of what follows it. */
  function SplitOn(s: string, sep: string): (parts: seq<string>)
    requires sep != []
    ensures |parts| >= 1
    decreases |s|
  {
    match IndexOf(s, sep)
    case None => [s]
    case Some(i) => [s[..i]] + SplitOn(s[i + |sep|..], sep)
  }

  /** The pieces glued back together with the separator between them. */
  function Join(parts: seq<string>, sep: string): string
  {
    if |parts| <= 1 then (if parts == [] then [] else parts[0])
    else parts[0] + sep + Join(parts[1..], sep)
  }

  /** Splitting on a non-empty separator loses nothing: joining the pieces
      gives back the string. */
  lemma {:induction false} SplitJoin(s: string, sep: string)
    requires sep != []
    ensures Join(Split(s, sep), sep) == s
    decreases |s|
  {
    match IndexOf(s, sep)
    case None =>
    case Some(i) =>
      var rest := s[i + |sep|..];
      var parts, tail := SplitOn(s, sep), SplitOn(rest, sep);
      assert parts == [s[..i]] + tail;
      assert Join(tail, sep) == rest by { SplitJoin(rest, sep); }
      assert Join(parts, sep) == s[..i] + sep + Join(tail, sep) by { assert parts[1..] == tail; }
      assert s == s[..i] + sep + rest;
  }

  /** A string that is cut before the first occurrence of `sep` does not contain it. */
  lemma CutBeforeFirst(s: string, sep: string, i: nat)
    requires sep != [] && i <= |s|
    requires forall k :: 0 <= k < i ==> !OccursAt(s, sep, k)
    ensures !Contains(s[..i], sep)
  {
    var prefix := s[..i];
    forall k: nat | OccursAt(prefix, sep, k)
      ensures false
    {
      assert prefix[k..k + |sep|] == s[k..k + |sep|];
      assert OccursAt(s, sep, k);
    }
  }

  /** No piece of a split on a non-empty separator contains the separator. */
  lemma {:induction false} SplitPiecesClean(s: string, sep: string)
    requires sep != []
    ensures forall k :: 0 <= k < |Split(s, sep)| ==> !Contains(Split(s, sep)[k], sep)
    decreases |s|
  {
    match IndexOf(s, sep)
    case None =>
    case Some(i) =>
      var rest := s[i + |sep|..];
      SplitPiecesClean(rest, sep);
      CutBeforeFirst(s, sep, i);
      var parts, tail := SplitOn(s, sep), SplitOn(rest, sep);
      assert parts == [s[..i]] + tail;
      assert Split(rest, sep) == tail;
      forall k | 0 <= k < |parts|
        ensures !Contains(parts[k], sep)
      {
        if k > 0 { assert parts[k] == tail[k - 1]; }
      }
  }

  /** Splitting `a + sep + b` when `sep` does not start inside `a`. */
  lemma SplitAfter(a: string, sep: string, b: string)
    requires sep != []
    requires forall k :: 0 <= k < |a| ==> !OccursAt(a + sep + b, sep, k)
    ensures IndexOf(a + sep + b, sep) == Some(|a|)
    ensures Split(a + sep + b, sep) == [a] + Split(b, sep)
  {
    var s := a + sep + b;
    assert OccursAt(s, sep, |a|) by {
      assert s[|a|..|a| + |sep|] == sep;
    }
    assert IndexOf(s, sep) == Some(|a|);
    assert s[..|a|] == a;
    assert s[|a| + |sep|..] == b;
  }

  /** A string in which `sep` never occurs splits into itself. */
  lemma SplitWhole(s: string, sep: string)
    requires sep != []
    requires forall k :: 0 <= k < |s| ==> !OccursAt(s, sep, k)
    ensures Split(s, sep) == [s]
  {
    assert IndexOf(s, sep) == None;
  }

  predicate IsDigit(c: char)
  {
    '0' <= c <= '9'
  }

  /** Value of a string of decimal digits. */
  function DigitsValue(s: string): nat
    requires forall k :: 0 <= k < |s| ==> IsDigit(s[k])
  {
    if s == [] then 0
    else
      assert IsDigit(s[|s| - 1]);
      10 * DigitsValue(s[..|s| - 1]) + (s[|s| - 1] as int - '0' as int)
  }

  /** The digit character for `d`. */
  function DigitChar(d: nat): char
    requires d < 10
  {
    ('0' as int + d) as char
  }

  /** The decimal numeral of `n`, without leading zeros: what a class name
      such as `square_12` carries. */
  function Digits(n: nat): string
  {
    if n < 10 then [DigitChar(n)] else Digits(n / 10) + [DigitChar(n % 10)]
  }

  /** Unary `+` on a field: the empty string is 0, a string of decimal digits
      is its value, anything else is NaN (`None`).  A numeral without leading
      zeros is read back as the number it prints. */
  function ToNumber(s: string): (r: Option<nat>)
    ensures s == [] ==> r == Some(0)
    ensures (forall k :: 0 <= k < |s| ==> IsDigit(s[k])) && s != [] && s[0] != '0'
            ==> r.Some? && Digits(r.value) == s
  {
    if forall k :: 0 <= k < |s| ==> IsDigit(s[k]) then
      if s != [] && s[0] != '0' then
        CanonicalDigits(s);
        Some(DigitsValue(s))
      else Some(DigitsValue(s))
    else None
  }

  /** A numeral without leading zeros is the printed form of its value. */
  lemma {:induction false} CanonicalDigits(s: string)
    requires forall k :: 0 <= k < |s| ==> IsDigit(s[k])
    requires s != [] && s[0] != '0'
    ensures DigitsValue(s) >= 1 && Digits(DigitsValue(s)) == s
    decreases |s|
  {
    var last := s[|s| - 1];
    var d := last as int - '0' as int;
    assert 0 <= d < 10 && DigitChar(d) == last;
    if |s| == 1 {
      assert s == [last];
    } else {
      var t := s[..|s| - 1];
      CanonicalDigits(t);
      var v := DigitsValue(s);
      assert v == 10 * DigitsValue(t) + d;
      assert v / 10 == DigitsValue(t) && v % 10 == d;
      assert s == t + [last];
    }
  }

  /** Printing a number and reading it back gives the number: the numeral is
      non-empty, all digits, and without a leading zero. */
  lemma {:induction false} DigitsRoundTrip(n: nat)
    ensures |Digits(n)| >= 1
    ensures forall k :: 0 <= k < |Digits(n)| ==> IsDigit(Digits(n)[k])
    ensures n != 0 ==> Digits(n)[0] != '0'
    ensures ToNumber(Digits(n)) == Some(n)
    decreases n
  {
    var s := Digits(n);
    if n >= 10 {
      var t := Digits(n / 10);
      DigitsRoundTrip(n / 10);
      assert s == t + [DigitChar(n % 10)];
      assert s[..|s| - 1] == t;
      assert forall k :: 0 <= k < |s| ==> IsDigit(s[k]);
      assert DigitsValue(s) == 10 * DigitsValue(t) + n % 10;
    } else {
      assert s[..0] == [];
      assert DigitsValue(s) == n;
    }
  }

  /** Field `i` of the split token as a number; a missing field is `undefined`, i.e. NaN. */
  function Field(parts: seq<string>, i: nat): Option<nat>
  {
    if i < |parts| then ToNumber(parts[i]) else None
  }

  /** A number JavaScript treats as true: defined and non-zero. */
  predicate Truthy(n: Option<nat>)
  {
    n.Some? && n.value != 0
  }

  /** What one class token says about the scale: `None` when the token does
      not decide it (no separator, or a second field that is empty, zero or
      not a number). */
  function TokenScale(tok: string, sep: string): (r: Option<Scale>)
    ensures r.Some? ==> Contains(tok, sep) && |Split(tok, sep)| >= 2
  {
    if !Contains(tok, sep) then None
    else
      var parts := Split(tok, sep);
      var xNum, yNum := Field(parts, 1), Field(parts, 2);
      if Truthy(xNum) then
        if Truthy(yNum) then Some(Scale(xNum.value, yNum.value)) else Some(Scale(xNum.value, xNum.value))
      else None
  }

  /** A token decides exactly when it contains the separator and its second
      field is a non-zero number; the width is that number, and the height is
      the third field when that is a non-zero number, the width otherwise. */
  lemma TokenScaleDecides(tok: string, sep: string)
    ensures TokenScale(tok, sep).Some? <==> Contains(tok, sep) && Truthy(Field(Split(tok, sep), 1))
    ensures TokenScale(tok, sep).Some? ==> TokenScale(tok, sep).value.x == Field(Split(tok, sep), 1).value
    ensures TokenScale(tok, sep).Some? && Truthy(Field(Split(tok, sep), 2))
            ==> TokenScale(tok, sep).value.y == Field(Split(tok, sep), 2).value
    ensures TokenScale(tok, sep).Some? && !Truthy(Field(Split(tok, sep), 2))
            ==> TokenScale(tok, sep).value.y == TokenScale(tok, sep).value.x
  {
  }

  /** The scale the first deciding token gives, `{1, 1}` when none decides. */
  function FirstScale(tokens: seq<string>, sep: string): Scale
  {
    if tokens == [] then Unit
    else match TokenScale(tokens[0], sep)
      case Some(sc) => sc
      case None => FirstScale(tokens[1..], sep)
  }

  /** Every scale read from a class list is `{1, 1}` or what some token says. */
  lemma {:induction false} FirstScaleFromToken(tokens: seq<string>, sep: string)
    ensures FirstScale(tokens, sep) == Unit
      || exists k :: 0 <= k < |tokens| && TokenScale(tokens[k], sep) == Some(FirstScale(tokens, sep))
  {
    if tokens != [] && TokenScale(tokens[0], sep).None? {
      FirstScaleFromToken(tokens[1..], sep);
      var r := FirstScale(tokens, sep);
      if r != Unit {
        var k :| 0 <= k < |tokens| - 1 && TokenScale(tokens[1..][k], sep) == Some(r);
        assert TokenScale(tokens[k + 1], sep) == Some(r);
      }
    }
  }

  /** The scale a class attribute names. */
  function ScaleOf(cls: string, sep: string): Scale
  {
    FirstScale(Split(cls, " "), sep)
  }

  /** The first deciding token wins and every token before it is skipped;
      with no deciding token the scale is `{1, 1}`. */
  lemma {:induction false} FirstScaleIsFirstDeciding(tokens: seq<string>, sep: string)
    ensures (forall k :: 0 <= k < |tokens| ==> TokenScale(tokens[k], sep).None?)
            ==> FirstScale(tokens, sep) == Unit
    ensures forall k :: (0 <= k < |tokens| && TokenScale(tokens[k], sep).Some?
                         && (forall j :: 0 <= j < k ==> TokenScale(tokens[j], sep).None?))
                        ==> FirstScale(tokens, sep) == TokenScale(tokens[k], sep).value
  {
    if tokens != [] {
      FirstScaleIsFirstDeciding(tokens[1..], sep);
      forall k | 0 <= k < |tokens| && TokenScale(tokens[k], sep).Some?
                 && (forall j :: 0 <= j < k ==> TokenScale(tokens[j], sep).None?)
        ensures FirstScale(tokens, sep) == TokenScale(tokens[k], sep).value
      {
        if k > 0 {
          assert tokens[1..][k - 1] == tokens[k];
          assert forall j :: 0 <= j < k - 1 ==> tokens[1..][j] == tokens[j + 1];
        }
      }
      if forall k :: 0 <= k < |tokens| ==> TokenScale(tokens[k], sep).None? {
        assert forall k :: 0 <= k < |tokens| - 1 ==> tokens[1..][k] == tokens[k + 1];
      }
    }
  }

  /** `getScale`: scans the class tokens in order and returns at the first
      token that decides the scale; `{1, 1}` when none does. */
  method GetScale(cls: string, sep: string) returns (scale: Scale)
    ensures scale == ScaleOf(cls, sep)
  {
    var tmp := Split(cls, " ");
    for i := 0 to |tmp|
      invariant FirstScale(tmp[i..], sep) == FirstScale(tmp, sep)
    {
      assert tmp[i..][1..] == tmp[i + 1..];
      if Contains(tmp[i], sep) {
        var parts := Split(tmp[i], sep);
        var xNum := Field(parts, 1);
        var yNum := Field(parts, 2);
        if Truthy(xNum) {
          if Truthy(yNum) {
            return Scale(xNum.value, yNum.value);
          } else {
            return Scale(xNum.value, xNum.value);
          }
        }
      }
    }
    return Unit;
  }

  /** A one-character separator occurs exactly where that character is. */
  lemma OccursAtChar(s: string, c: char)
    ensures forall k: nat :: OccursAt(s, [c], k) <==> k < |s| && s[k] == c
  {
    forall k: nat | k < |s| && s[k] == c
      ensures OccursAt(s, [c], k)
    {
      assert s[k..k + 1] == [s[k]];
    }
  }

  /** A character absent from `a` does not occur before `a`'s end in `a + [c] + b`. */
  lemma CharAbsent(a: string, c: char, b: string)
    requires forall k :: 0 <= k < |a| ==> a[k] != c
    ensures forall k :: 0 <= k < |a| ==> !OccursAt(a + [c] + b, [c], k)
    ensures forall k :: 0 <= k < |a| ==> !OccursAt(a, [c], k)
  {
    OccursAtChar(a + [c] + b, c);
    OccursAtChar(a, c);
  }

  /** A string without the character `c` is a single piece. */
  lemma NoChar(s: string, c: char)
    requires forall k :: 0 <= k < |s| ==> s[k] != c
    ensures Split(s, [c]) == [s]
  {
    OccursAtChar(s, c);
    SplitWhole(s, [c]);
  }

  /** A token that splits into at least two pieces contains the separator,
      and its scale is read off the second and third pieces. */
  lemma TokenOfPieces(t: string, sep: string, parts: seq<string>, xNum: Option<nat>, yNum: Option<nat>)
    requires sep != [] && Split(t, sep) == parts && |parts| >= 2
    requires Field(parts, 1) == xNum && Field(parts, 2) == yNum
    ensures TokenScale(t, sep) ==
      if !Truthy(xNum) then None
      else if Truthy(yNum) then Some(Scale(xNum.value, yNum.value))
      else Some(Scale(xNum.value, xNum.value))
  {
    assert Contains(t, sep);
  }

  /** Two pieces free of the one-character separator `sep`, joined by it,
      split back into those pieces. */
  lemma SplitPair(a: string, sep: char, b: string)
    requires forall k :: 0 <= k < |a| ==> a[k] != sep
    requires forall k :: 0 <= k < |b| ==> b[k] != sep
    ensures Split(a + [sep] + b, [sep]) == [a, b]
  {
    CharAbsent(a, sep, b);
    SplitAfter(a, [sep], b);
    NoChar(b, sep);
  }

  /** Three pieces free of `sep`, joined by it, split back into those pieces. */
  lemma SplitTriple(a: string, sep: char, b: string, c: string)
    requires forall k :: 0 <= k < |a| ==> a[k] != sep
    requires forall k :: 0 <= k < |b| ==> b[k] != sep
    requires forall k :: 0 <= k < |c| ==> c[k] != sep
    ensures Split(a + [sep] + b + [sep] + c, [sep]) == [a, b, c]
  {
    SplitPair(b, sep, c);
    CharAbsent(a, sep, b + [sep] + c);
    assert a + [sep] + b + [sep] + c == a + [sep] + (b + [sep] + c);
    SplitAfter(a, [sep], b + [sep] + c);
  }

  /** The class-name format read back: a prefix without the separator, then
      the separator and a width, and optionally the separator and a height,
      gives that width and height; a zero height gives a square span. */
  lemma TokenRoundTrip(p: string, sep: char, n: nat, m: nat)
    requires forall k :: 0 <= k < |p| ==> p[k] != sep
    requires !IsDigit(sep) && n >= 1
    ensures TokenScale(p + [sep] + Digits(n), [sep]) == Some(Scale(n, n))
    ensures TokenScale(p + [sep] + Digits(n) + [sep] + Digits(m), [sep])
            == Some(if m >= 1 then Scale(n, m) else Scale(n, n))
  {
    var dn, dm := Digits(n), Digits(m);
    DigitsRoundTrip(n);
    DigitsRoundTrip(m);
    SplitPair(p, sep, dn);
    TokenOfPieces(p + [sep] + dn, [sep], [p, dn], Some(n), None);
    SplitTriple(p, sep, dn, dm);
    TokenOfPieces(p + [sep] + dn + [sep] + dm, [sep], [p, dn, dm], Some(n), Some(m));
  }

  /** A class attribute holding one such class name, with no space in it,
      gives that width and height. */
  lemma ClassRoundTrip(p: string, sep: char, n: nat, m: nat)
    requires forall k :: 0 <= k < |p| ==> p[k] != sep && p[k] != ' '
    requires !IsDigit(sep) && sep != ' ' && n >= 1
    ensures ScaleOf(p + [sep] + Digits(n), [sep]) == Scale(n, n)
    ensures ScaleOf(p + [sep] + Digits(n) + [sep] + Digits(m), [sep])
            == if m >= 1 then Scale(n, m) else Scale(n, n)
  {
    TokenRoundTrip(p, sep, n, m);
    var one := p + [sep] + Digits(n);
    var two := one + [sep] + Digits(m);
    DigitsFree(n, ' ');
    DigitsFree(m, ' ');
    ConcatFree(p, [sep], ' ');
    ConcatFree(p + [sep], Digits(n), ' ');
    ConcatFree(one, [sep], ' ');
    ConcatFree(one + [sep], Digits(m), ' ');
    SingleToken(one, [sep]);
    SingleToken(two, [sep]);
  }

  /** A numeral contains no character other than a digit: neither a
      non-digit separator nor a space. */
  lemma DigitsFree(n: nat, c: char)
    requires !IsDigit(c)
    ensures forall k :: 0 <= k < |Digits(n)| ==> Digits(n)[k] != c
  {
    DigitsRoundTrip(n);
  }

  /** Two strings without `c` concatenate to a string without `c`. */
  lemma ConcatFree(a: string, b: string, c: char)
    requires forall k :: 0 <= k < |a| ==> a[k] != c
    requires forall k :: 0 <= k < |b| ==> b[k] != c
    ensures forall k :: 0 <= k < |a + b| ==> (a + b)[k] != c
  {
  }

  /** A class attribute without a space is one token, which decides alone. */
  lemma SingleToken(cls: string, sep: string)
    requires forall k :: 0 <= k < |cls| ==> cls[k] != ' '
    ensures ScaleOf(cls, sep) == if TokenScale(cls, sep).Some? then TokenScale(cls, sep).value else Unit
  {
    NoChar(cls, ' ');
    assert [cls][1..] == [];
    assert FirstScale([cls][1..], sep) == Unit;
  }

  // The examples below take the class attribute as a parameter fixed by
  // their precondition, which keeps the verifier from unfolding the
  // recursive definitions on literal strings.

  /** "box_3": a single number is a square span. */
  lemma ScaleExampleSquare(cls: string)
    requires cls == "box_3"
    ensures ScaleOf(cls, "_") == Scale(3, 3)
  {
    var box, three := "box", "3";
    assert cls == box + "_" + three;
    assert Split(cls, " ") == [cls] by { NoChar(cls, ' '); }
    SplitPair(box, '_', three);
    assert DigitsValue(three) == 3;
    TokenOfPieces(cls, "_", [box, three], Some(3), None);
  }

  /** "box_2_4": a second number sets the height. */
  lemma ScaleExampleTall(cls: string)
    requires cls == "box_2_4"
    ensures ScaleOf(cls, "_") == Scale(2, 4)
  {
    var box, two, four := "box", "2", "4";
    assert cls == box + "_" + two + "_" + four;
    assert Split(cls, " ") == [cls] by { NoChar(cls, ' '); }
    SplitTriple(box, '_', two, four);
    assert DigitsValue(two) == 2 && DigitsValue(four) == 4;
    TokenOfPieces(cls, "_", [box, two, four], Some(2), Some(4));
  }

  /** "box_2_0": a zero height is not a height, so the span is square. */
  lemma ScaleExampleZeroHeight(cls: string)
    requires cls == "box_2_0"
    ensures ScaleOf(cls, "_") == Scale(2, 2)
  {
    var box, two, zero := "box", "2", "0";
    assert cls == box + "_" + two + "_" + zero;
    assert Split(cls, " ") == [cls] by { NoChar(cls, ' '); }
    SplitTriple(box, '_', two, zero);
    assert DigitsValue(two) == 2 && DigitsValue(zero) == 0;
    TokenOfPieces(cls, "_", [box, two, zero], Some(2), Some(0));
  }

  /** "box": no token names a scale, so the span is 1x1. */
  lemma ScaleExampleDefault(cls: string)
    requires cls == "box"
    ensures ScaleOf(cls, "_") == Unit
  {
    assert Split(cls, " ") == [cls] by { NoChar(cls, ' '); }
    OccursAtChar(cls, '_');
    assert TokenScale(cls, "_") == None;
    assert [cls][1..] == [];
    assert FirstScale([cls], "_") == FirstScale([], "_");
  }

  /** "box box_x box_3" splits into its three class names. */
  lemma SkipClassList(cls: string, box: string, boxX: string, box3: string)
    requires cls == "box box_x box_3" && box == "box" && boxX == "box_x" && box3 == "box_3"
    ensures Split(cls, " ") == [box, boxX, box3]
  {
    var rest := boxX + " " + box3;
    assert cls == box + " " + rest;
    assert Split(rest, " ") == [boxX, box3] by {
      CharAbsent(boxX, ' ', box3);
      SplitAfter(boxX, " ", box3);
      NoChar(box3, ' ');
    }
    CharAbsent(box, ' ', rest);
    SplitAfter(box, " ", rest);
  }

  /** "box_x" does not decide: its second field is not a number. */
  lemma SkipNotANumber(tok: string)
    requires tok == "box_x"
    ensures TokenScale(tok, "_") == None
  {
    var box, x := "box", "x";
    assert tok == box + "_" + x;
    SplitPair(box, '_', x);
    assert !IsDigit(x[0]);
    TokenOfPieces(tok, "_", [box, x], None, None);
  }

  /** "box_3" decides a 3x3 span. */
  lemma SkipNumber(tok: string)
    requires tok == "box_3"
    ensures TokenScale(tok, "_") == Some(Scale(3, 3))
  {
    var box, three := "box", "3";
    assert tok == box + "_" + three;
    SplitPair(box, '_', three);
    assert DigitsValue(three) == 3;
    TokenOfPieces(tok, "_", [box, three], Some(3), None);
  }

  /** "box" does not decide: it has no separator. */
  lemma SkipNoSeparator(tok: string)
    requires tok == "box"
    ensures TokenScale(tok, "_") == None
  {
    OccursAtChar(tok, '_');
    assert !Contains(tok, "_");
  }

  /** "box box_x box_3": tokens that do not name a number are skipped and
      the first token with a non-zero number decides. */
  lemma ScaleExampleSkip(cls: string)
    requires cls == "box box_x box_3"
    ensures ScaleOf(cls, "_") == Scale(3, 3)
  {
    var box, boxX, box3 := "box", "box_x", "box_3";
    SkipClassList(cls, box, boxX, box3);
    var tokens := Split(cls, " ");
    SkipNoSeparator(tokens[0]);
    SkipNotANumber(tokens[1]);
    SkipNumber(tokens[2]);
    FirstScaleIsFirstDeciding(tokens, "_");
    assert forall j :: 0 <= j < 2 ==> TokenScale(tokens[j], "_").None?;
  }
}
