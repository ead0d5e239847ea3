/**
 * The pure helpers of the Yummo `Utils` module: the `{n}` template
 * substitution that `String.prototype.format` adds, the `asString`
 * conversion, and the decimal numerals both rely on.
 */
module Utils {
  import opened Wrappers

  /**
   * A JavaScript value, as far as conversion to a string is concerned.
   * `Num` is an integral number, written as its exact decimal numeral (which
   * is what JavaScript writes only for magnitudes up to 2^53); `Str` is a
   * string, or any other object given by the text its `toString` returns.
   */
  datatype Value = Undefined | Null | Num(n: int) | Str(text: string)

  // ---------------------------------------------------------------------
  // Decimal numerals
  // ---------------------------------------------------------------------

  predicate IsDigit(c: char) {
    '0' <= c <= '9'
  }

  predicate AllDigits(s: string) {
    forall i :: 0 <= i < |s| ==> IsDigit(s[i])
  }

  /** A numeral is canonical when it has no leading zero (except "0" itself). */
  predicate Canonical(s: string) {
    |s| > 0 && AllDigits(s) && (|s| > 1 ==> s[0] != '0')
  }

  function DigitChar(d: nat): (c: char)
    requires d < 10
    ensures IsDigit(c)
  {
    ('0' as int + d) as char
  }

  function DigitValue(c: char): (d: nat)
    requires IsDigit(c)
    ensures d < 10 && DigitChar(d) == c
  {
    c as int - '0' as int
  }

  /**
   * The decimal numeral of `n`. `Number.prototype.toString` writes this
   * numeral for a safe integer (below 2^53); larger numbers are rounded to
   * a double first, and from 10^21 on written in exponent form.
   */
  function Decimal(n: nat): (r: string)
    ensures Canonical(r)
  {
    if n < 10 then [DigitChar(n)] else Decimal(n / 10) + [DigitChar(n % 10)]
  }

  /** The number a string of decimal digits denotes. */
  function ParseDecimal(s: string): nat
    requires AllDigits(s)
  {
    if s == [] then 0 else ParseDecimal(s[..|s| - 1]) * 10 + DigitValue(s[|s| - 1])
  }

  /**
   * The argument slot that the digits of a placeholder name. The digits are
   * used as a property key of the `arguments` object, and only a canonical
   * numeral is an index key there: "01" names no slot.
   */
  function SlotIndex(digits: string): Option<nat>
    requires |digits| > 0 && AllDigits(digits)
  {
    if |digits| > 1 && digits[0] == '0' then None else Some(ParseDecimal(digits))
  }

  lemma {:induction false} ParseDecimalOfDecimal(n: nat)
    ensures ParseDecimal(Decimal(n)) == n
  {
    if n >= 10 {
      var p := Decimal(n / 10);
      var s := p + [DigitChar(n % 10)];
      assert s[..|s| - 1] == p;
      ParseDecimalOfDecimal(n / 10);
    }
  }

  lemma {:induction false} DecimalOfParseDecimal(s: string)
    requires Canonical(s)
    ensures Decimal(ParseDecimal(s)) == s
  {
    if |s| > 1 {
      var p := s[..|s| - 1];
      assert Canonical(p) by {
        assert p[0] == s[0];
        forall i | 0 <= i < |p| ensures IsDigit(p[i]) { assert p[i] == s[i]; }
      }
      DecimalOfParseDecimal(p);
      var m := ParseDecimal(p);
      var n := ParseDecimal(s);
      assert n / 10 == m && n % 10 == DigitValue(s[|s| - 1]);
      assert s == p + [s[|s| - 1]];
    }
  }

  /** A placeholder's digits name slot `n` exactly when they are the decimal numeral of `n`. */
  lemma SlotIndexIsDecimal(digits: string, n: nat)
    requires |digits| > 0 && AllDigits(digits)
    ensures SlotIndex(digits) == Some(n) <==> digits == Decimal(n)
  {
    if SlotIndex(digits) == Some(n) {
      DecimalOfParseDecimal(digits);
    }
    if digits == Decimal(n) {
      ParseDecimalOfDecimal(n);
    }
  }

  /** Distinct numbers have distinct numerals. */
  lemma DecimalInjective(m: nat, n: nat)
    requires Decimal(m) == Decimal(n)
    ensures m == n
  {
    ParseDecimalOfDecimal(m);
    ParseDecimalOfDecimal(n);
  }

  // ---------------------------------------------------------------------
  // Conversion to a string
  // ---------------------------------------------------------------------

  /** JavaScript's ToString conversion, which `replace` applies to a replacer's result. */
  function ToString(v: Value): string {
    match v
    case Undefined => "undefined"
    case Null => "null"
    case Num(n) => if n < 0 then "-" + Decimal(-n) else Decimal(n)
    case Str(text) => text
  }

  /** `asString`: the empty string for `null` and `undefined`, `toString()` of anything else. */
  function AsString(v: Value): (r: string)
    ensures v.Undefined? || v.Null? ==> r == ""
    ensures !(v.Undefined? || v.Null?) ==> r == ToString(v)
  {
    if v.Undefined? || v.Null? then "" else ToString(v)
  }

  /** `asString` differs from the language's own conversion exactly on `null` and `undefined`. */
  lemma AsStringAgreesWithToString(v: Value)
    ensures AsString(v) == ToString(v) <==> !(v.Undefined? || v.Null?)
  {
  }

  // ---------------------------------------------------------------------
  // String.prototype.format
  // ---------------------------------------------------------------------

  /** `p` is one match of the pattern /{(\d+)}/: a brace, one or more digits, a closing brace. */
  predicate IsPlaceholder(p: string) {
    |p| >= 3 && p[0] == '{' && p[|p| - 1] == '}' && AllDigits(p[1..|p| - 1])
  }

  /** Some substring of `t` matches /{(\d+)}/. */
  predicate HasPlaceholder(t: string) {
    exists i, j :: 0 <= i <= j <= |t| && IsPlaceholder(t[i..j])
  }

  /** Length of the run of decimal digits at the start of `s`. */
  function DigitRun(s: string): (k: nat)
    ensures k <= |s|
    ensures forall i :: 0 <= i < k ==> IsDigit(s[i])
    ensures k < |s| ==> !IsDigit(s[k])
  {
    if s != [] && IsDigit(s[0]) then 1 + DigitRun(s[1..]) else 0
  }

  /** A placeholder at the start of `t` is a brace, the whole run of digits after it, and a closing brace. */
  lemma PlaceholderPrefix(t: string, j: nat)
    requires j <= |t| && IsPlaceholder(t[..j])
    ensures t[0] == '{' && t[j - 1] == '}' && DigitRun(t[1..]) == j - 2
  {
    var s := t[1..];
    assert forall i :: 0 <= i < j - 2 ==> s[i] == t[..j][1..j - 1][i];
    assert s[j - 2] == t[..j][j - 1];
    DigitRunExact(s, j - 2);
  }

  /** A run of `m` digits followed by a non-digit (or the end) is the digit run. */
  lemma {:induction false} DigitRunExact(s: string, m: nat)
    requires m <= |s|
    requires forall i :: 0 <= i < m ==> IsDigit(s[i])
    requires m < |s| ==> !IsDigit(s[m])
    ensures DigitRun(s) == m
  {
    if m > 0 {
      DigitRunExact(s[1..], m - 1);
    }
  }

  /** Every placeholder prefix of `t` has the length that PlaceholderAt reads off. */
  lemma PlaceholderPrefixes(t: string)
    ensures forall j :: 0 <= j <= |t| && IsPlaceholder(t[..j]) ==>
      t[0] == '{' && t[j - 1] == '}' && DigitRun(t[1..]) == j - 2
  {
    forall j | 0 <= j <= |t| && IsPlaceholder(t[..j])
      ensures t[0] == '{' && t[j - 1] == '}' && DigitRun(t[1..]) == j - 2
    {
      PlaceholderPrefix(t, j);
    }
  }

  /**
   * Whether the pattern /{(\d+)}/ matches at the start of `t`, and if so the
   * number of its digits. The match, when there is one, is the only prefix
   * of `t` that is a placeholder.
   */
  function PlaceholderAt(t: string): (r: Option<nat>)
    ensures r.Some? ==> r.value + 2 <= |t| && IsPlaceholder(t[..r.value + 2])
    ensures r.Some? ==> forall j :: 0 <= j <= |t| && IsPlaceholder(t[..j]) ==> j == r.value + 2
    ensures r.None? ==> forall j :: 0 <= j <= |t| ==> !IsPlaceholder(t[..j])
  {
    PlaceholderPrefixes(t);
    if t == [] || t[0] != '{' then None
    else
      var d := DigitRun(t[1..]);
      if 0 < d && d + 1 < |t| && t[d + 1] == '}' then
        assert t[..d + 2][1..d + 1] == t[1..][..d];
        Some(d)
      else
        None
  }

  /** The text a placeholder with these digits is replaced by. */
  function Replacement(digits: string, args: seq<Value>): string
    requires |digits| > 0 && AllDigits(digits)
  {
    match SlotIndex(digits)
    case Some(n) =>
      if n < |args| && !args[n].Undefined? then ToString(args[n]) else "{" + digits + "}"
    case None => "{" + digits + "}"
  }

  /**
   * `template.format(...args)`: one left-to-right pass of
   * `replace(/{(\d+)}/g, ...)`; a placeholder whose slot holds a defined
   * argument becomes that argument's text, any other is kept as it is.
   */
  function Format(template: string, args: seq<Value>): string
    decreases |template|
  {
    if template == [] then []
    else
      match PlaceholderAt(template)
      case Some(d) =>
        assert AllDigits(template[..d + 2][1..d + 1]);
        assert template[..d + 2][1..d + 1] == template[1..d + 1];
        Replacement(template[1..d + 1], args) + Format(template[d + 2..], args)
      case None => [template[0]] + Format(template[1..], args)
  }

  /** A template with no `{digits}` pattern in it is returned unchanged. */
  lemma {:induction false} FormatPlainText(template: string, args: seq<Value>)
    requires !HasPlaceholder(template)
    ensures Format(template, args) == template
    decreases |template|
  {
    if template != [] {
      PlaceholderFound(template);
      var rest := template[1..];
      NoPlaceholderInTail(template);
      FormatPlainText(rest, args);
    }
  }

  /** Dropping the first character of a text free of placeholders leaves a text free of placeholders. */
  lemma NoPlaceholderInTail(t: string)
    requires t != [] && !HasPlaceholder(t)
    ensures !HasPlaceholder(t[1..])
  {
    var tail := t[1..];
    forall i, j | 0 <= i <= j <= |tail| ensures !IsPlaceholder(tail[i..j]) {
      assert tail[i..j] == t[i + 1..j + 1];
    }
  }

  /** Where no match starts, Format copies the first character and moves on. */
  lemma FormatPlainHead(t: string, args: seq<Value>)
    requires t != [] && PlaceholderAt(t).None?
    ensures Format(t, args) == [t[0]] + Format(t[1..], args)
  {
  }

  /** A match of /{(\d+)}/ at the start of `t` is a placeholder in `t`. */
  lemma PlaceholderFound(t: string)
    ensures PlaceholderAt(t).Some? ==> HasPlaceholder(t)
  {
    if PlaceholderAt(t).Some? {
      var d := PlaceholderAt(t).value;
      assert t[0..d + 2] == t[..d + 2];
    }
  }

  /** With no defined argument, every placeholder is kept verbatim, so nothing changes. */
  lemma {:induction false} FormatWithoutArguments(template: string, args: seq<Value>)
    requires forall k :: 0 <= k < |args| ==> args[k].Undefined?
    ensures Format(template, args) == template
    decreases |template|
  {
    if template != [] {
      match PlaceholderAt(template)
      case Some(d) =>
        var digits := template[1..d + 1];
        var rest := template[d + 2..];
        assert template[..d + 2][1..d + 1] == digits;
        assert template == "{" + digits + "}" + rest by {
          assert template[..d + 2] == "{" + digits + "}";
        }
        FormatKeeps(digits, rest, args);
        FormatWithoutArguments(rest, args);
      case None =>
        FormatWithoutArguments(template[1..], args);
    }
  }

  /** The match of /{(\d+)}/ at the start of `"{" + digits + "}" + rest` is exactly that placeholder. */
  lemma PlaceholderAtBraced(digits: string, rest: string)
    requires |digits| > 0 && AllDigits(digits)
    ensures PlaceholderAt("{" + digits + "}" + rest) == Some(|digits|)
  {
    var t := "{" + digits + "}" + rest;
    assert t[..|digits| + 2] == "{" + digits + "}";
    assert t[..|digits| + 2][1..|digits| + 1] == digits;
  }

  /**
   * A placeholder naming a defined argument is replaced by that argument's
   * text, which is not scanned again: the rest of the template is formatted
   * on its own.
   */
  lemma FormatSubstitutes(n: nat, rest: string, args: seq<Value>)
    requires n < |args| && !args[n].Undefined?
    ensures Format("{" + Decimal(n) + "}" + rest, args) == ToString(args[n]) + Format(rest, args)
  {
    var t := "{" + Decimal(n) + "}" + rest;
    PlaceholderAtBraced(Decimal(n), rest);
    var d := |Decimal(n)|;
    assert t[1..d + 1] == Decimal(n);
    assert t[d + 2..] == rest;
    SlotIndexIsDecimal(Decimal(n), n);
  }

  /**
   * A placeholder whose digits name no defined argument (a slot out of
   * range, an `undefined` argument, or a numeral with a leading zero) is
   * kept as it is.
   */
  lemma FormatKeeps(digits: string, rest: string, args: seq<Value>)
    requires |digits| > 0 && AllDigits(digits)
    requires forall n :: SlotIndex(digits) == Some(n) ==> n >= |args| || args[n].Undefined?
    ensures Format("{" + digits + "}" + rest, args) == "{" + digits + "}" + Format(rest, args)
  {
    var t := "{" + digits + "}" + rest;
    PlaceholderAtBraced(digits, rest);
    var d := |digits|;
    assert t[1..d + 1] == digits;
    assert t[d + 2..] == rest;
  }

  /** A run of digits ends where the digits stop, whatever follows. */
  lemma {:induction false} DigitRunConcat(a: string, b: string)
    requires b != [] ==> !IsDigit(b[0])
    ensures DigitRun(a + b) == DigitRun(a)
  {
    if a != [] {
      assert (a + b)[1..] == a[1..] + b;
      DigitRunConcat(a[1..], b);
    }
  }

  /**
   * A match of /{(\d+)}/ at the start of `prefix + rest` lies inside
   * `prefix` when `rest` cannot continue it (it opens with neither a digit
   * nor a closing brace).
   */
  lemma PlaceholderFoundInPrefix(prefix: string, rest: string)
    requires prefix != []
    requires rest != [] ==> !IsDigit(rest[0]) && rest[0] != '}'
    ensures PlaceholderAt(prefix + rest).Some? ==> HasPlaceholder(prefix)
  {
    var t := prefix + rest;
    if PlaceholderAt(t).Some? {
      var d := PlaceholderAt(t).value;
      assert t[1..] == prefix[1..] + rest;
      DigitRunConcat(prefix[1..], rest);
      assert prefix[0..d + 2] == t[..d + 2];
    }
  }

  /** Appending is associative; stated over plain strings so that it is not re-derived beside Format terms. */
  lemma AppendAssociative(a: string, b: string, c: string)
    ensures (a + b) + c == a + (b + c)
  {
  }

  /**
   * Text free of placeholders passes through unchanged in front of the
   * rest of a template, provided the rest cannot complete a pattern begun
   * in that text (it does not open with a digit or a closing brace).
   */
  lemma {:induction false} FormatPlainPrefix(prefix: string, rest: string, args: seq<Value>)
    requires !HasPlaceholder(prefix)
    requires rest != [] ==> !IsDigit(rest[0]) && rest[0] != '}'
    ensures Format(prefix + rest, args) == prefix + Format(rest, args)
    decreases |prefix|
  {
    if prefix == [] {
      assert prefix + rest == rest;
    } else {
      var t := prefix + rest;
      PlaceholderFoundInPrefix(prefix, rest);
      var tail := prefix[1..];
      NoPlaceholderInTail(prefix);
      FormatPlainPrefix(tail, rest, args);
      assert t[1..] == tail + rest;
      FormatPlainHead(t, args);
      assert prefix == [t[0]] + tail;
      AppendAssociative([t[0]], tail, Format(rest, args));
    }
  }
}
