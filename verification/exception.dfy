/**
 * Error kinds raised by the codec and the fixed 128-character buffer that
 * every one of them fills with its description (med/exception.hpp).
 *
 * `snprintf` is abstracted by `Render`: it yields the text the format string
 * produces, untruncated, and its length plays the part of snprintf's result.
 */
module Exceptions {

  /** Size of `m_what`, the buffer `what()` returns. */
  const WhatSize: nat := 128

  /** Precision of the `%.64s` conversion through which every name is printed. */
  const NameWidth: nat := 64

  const NUL: char := '\0'
  const Quote: char := '\''

  datatype Option<+T> = None | Some(value: T)

  /**
   * The concrete exception kinds with their payloads. The abstract base
   * `exception` and the intermediate `value_exception` and `ie_exception`
   * have no constructor of their own, as in the source where only the
   * derived kinds can be created.
   */
  datatype Error =
    | Overflow(name: string, bytes: nat)
    | InvalidValue(name: string, value: nat)
    | UnknownTag(name: string, value: nat)
    | MissingIe(name: string, expected: nat, got: nat)
    | ExtraIe(name: string, expected: nat, got: nat)
    | OutOfMemory(name: string, bytes: nat)
  {
    /** Derives from `value_exception`. */
    predicate IsValueError()
      ensures IsValueError() ==> !IsIeError() && !Overflow? && !OutOfMemory?
    {
      InvalidValue? || UnknownTag?
    }

    /** Derives from `ie_exception`. */
    predicate IsIeError()
      ensures IsIeError() ==> !Overflow? && !OutOfMemory?
    {
      MissingIe? || ExtraIe?
    }
  }

  /** Outcome of an operation that either succeeds or raises one of the kinds above. */
  datatype Result<+T> = Ok(value: T) | Err(error: Error)

  function Min(a: nat, b: nat): nat { if a < b then a else b }

  /** A C string: characters that do not include the terminator. */
  predicate IsCString(s: string) {
    forall i :: 0 <= i < |s| ==> s[i] != NUL
  }

  /** The characters of a character buffer up to its first NUL, as `what()` shows them. */
  function CString(s: seq<char>): (r: string)
    ensures |r| <= |s| && r == s[..|r|] && IsCString(r)
    ensures |r| < |s| ==> s[|r|] == NUL
  {
    if s == [] || s[0] == NUL then [] else [s[0]] + CString(s[1..])
  }

  /** A buffer whose index `k` holds the first NUL reads as its first `k` characters. */
  lemma CStringAt(s: seq<char>, k: nat)
    requires k < |s| && s[k] == NUL && IsCString(s[..k])
    ensures CString(s) == s[..k]
  {
  }

  // ----- the conversions of the format strings -----

  /** `%.64s`: the first 64 characters of a name, or all of it when shorter. */
  function Clip(name: string): (s: string)
    ensures |s| == Min(|name|, NameWidth) && s == name[..|s|]
    ensures |s| <= NameWidth && (|name| <= NameWidth ==> s == name)
  {
    name[..Min(|name|, NameWidth)]
  }

  function DigitChar(d: nat): (c: char)
    requires d < 16
  {
    if d < 10 then ('0' as int + d) as char else ('A' as int + d - 10) as char
  }

  function DigitValue(c: char): nat {
    if '0' <= c <= '9' then c as int - '0' as int
    else if 'A' <= c <= 'F' then c as int - 'A' as int + 10
    else 0
  }

  /** Digits of `n` in `base`, most significant first, upper-case (`%zu` for 10, `%zX` for 16). */
  function Digits(n: nat, base: nat): (s: string)
    requires 2 <= base <= 16
    ensures |s| >= 1
    decreases n
  {
    if n < base then [DigitChar(n)] else Digits(n / base, base) + [DigitChar(n % base)]
  }

  /** The number a digit string denotes in `base`. */
  function ValueOf(s: string, base: nat): nat {
    if s == [] then 0 else ValueOf(s[..|s| - 1], base) * base + DigitValue(s[|s| - 1])
  }

  lemma DigitValueOfChar(d: nat)
    requires d < 16
    ensures DigitValue(DigitChar(d)) == d
  {
  }

  /** Printing a number and reading it back gives the number. */
  lemma ValueOfSnoc(s: string, prefix: string, c: char, base: nat)
    requires s == prefix + [c]
    ensures ValueOf(s, base) == ValueOf(prefix, base) * base + DigitValue(c)
  {
    assert s[..|s| - 1] == prefix;
  }

  lemma {:induction false} DigitsRoundTrip(n: nat, base: nat)
    requires 2 <= base <= 16
    ensures ValueOf(Digits(n, base), base) == n
    decreases n
  {
    if n < base {
      DigitValueOfChar(n);
      ValueOfSnoc(Digits(n, base), [], DigitChar(n), base);
    } else {
      var q, d := n / base, n % base;
      assert q * base + d == n;
      DigitsRoundTrip(q, base);
      DigitValueOfChar(d);
      var prefix := Digits(q, base);
      assert Digits(n, base) == prefix + [DigitChar(d)];
      ValueOfSnoc(Digits(n, base), prefix, DigitChar(d), base);
    }
  }

  /** Digit strings hold neither the terminator nor a quote. */
  lemma {:induction false} DigitsArePlain(n: nat, base: nat)
    requires 2 <= base <= 16
    ensures IsCString(Digits(n, base)) && Quote !in Digits(n, base)
    decreases n
  {
    if n >= base {
      DigitsArePlain(n / base, base);
    }
  }

  function Decimal(n: nat): string { Digits(n, 10) }
  function Hex(n: nat): string { Digits(n, 16) }

  /** Text of the format string before the quoted name. */
  function Lead(e: Error): string {
    match e
    case Overflow(_, _) => ""
    case InvalidValue(_, _) => "Invalid value of "
    case UnknownTag(_, _) => "Unknown tag of "
    case MissingIe(_, _, _) => "Missing IE "
    case ExtraIe(_, _, _) => "Excessive IE "
    case OutOfMemory(_, _) => "No space to allocate "
  }

  /** Text of the format string after the quoted name, with its numbers converted. */
  function Trail(e: Error): string {
    match e
    case Overflow(_, bytes) => " needs " + Decimal(bytes) + " octets."
    case InvalidValue(_, v) => " = 0x" + Hex(v) + "."
    case UnknownTag(_, v) => " = 0x" + Hex(v) + "."
    case MissingIe(_, exp, got) => ": at least " + Decimal(exp) + " expected, got " + Decimal(got) + "."
    case ExtraIe(_, exp, got) => ": no more than " + Decimal(exp) + " expected, got " + Decimal(got) + "."
    case OutOfMemory(_, bytes) => ": " + Decimal(bytes) + " octets."
  }

  /**
   * The untruncated text `snprintf` produces for an exception of kind `e`:
   * the lead of its format string, the name cut to 64 characters between
   * quotes, and the trailing text with the payload's numbers. The name reads
   * back as the text between the first two quotes whenever that part of it
   * holds no quote, and the text is a C string whenever the name is.
   */
  function Render(e: Error): (r: string)
    ensures Quote !in Clip(e.name) ==> QuotedName(r) == Clip(e.name)
    ensures IsCString(e.name) ==> IsCString(r)
  {
    var lead, name, trail := Lead(e), Clip(e.name), Trail(e);
    var r := lead + [Quote] + name + [Quote] + trail;
    LeadHasNoQuote(e);
    TrailIsCString(e);
    assert Quote !in name ==> QuotedName(r) == name by {
      if Quote !in name {
        QuotedBetween(lead, name, trail);
      }
    }
    assert IsCString(e.name) ==> IsCString(r) by {
      if IsCString(e.name) {
        QuotedIsCString(lead, name, trail);
      }
    }
    r
  }

  /** Index of the first `c` in `s`, or `|s|` when there is none. */
  function Find(s: string, c: char): (i: nat)
    ensures i <= |s| && c !in s[..i]
    ensures i < |s| ==> s[i] == c
  {
    if s == [] || s[0] == c then 0 else 1 + Find(s[1..], c)
  }

  /** The text between the first two quotes of a message. */
  function QuotedName(s: string): string {
    var i := Find(s, Quote);
    if i == |s| then "" else
      var rest := s[i + 1..];
      rest[..Find(rest, Quote)]
  }

  lemma {:induction false} FindFirst(a: string, c: char, b: string)
    requires c !in a
    ensures Find(a + [c] + b, c) == |a|
  {
    if a != [] {
      assert (a + [c] + b)[1..] == a[1..] + [c] + b;
      FindFirst(a[1..], c, b);
    }
  }

  lemma QuotedBetween(lead: string, name: string, trail: string)
    requires Quote !in lead && Quote !in name
    ensures QuotedName(lead + [Quote] + name + [Quote] + trail) == name
  {
    var s := lead + [Quote] + name + [Quote] + trail;
    var after := name + [Quote] + trail;
    assert s == lead + [Quote] + after;
    FindFirst(lead, Quote, after);
    assert s[|lead| + 1..] == after;
    FindFirst(name, Quote, trail);
    assert after[..|name|] == name;
  }

  lemma LeadHasNoQuote(e: Error)
    ensures Quote !in Lead(e) && IsCString(Lead(e))
  {
    match e
    case Overflow(_, _) =>
    case InvalidValue(_, _) => assert Lead(e) == "Invalid value of ";
    case UnknownTag(_, _) => assert Lead(e) == "Unknown tag of ";
    case MissingIe(_, _, _) => assert Lead(e) == "Missing IE ";
    case ExtraIe(_, _, _) => assert Lead(e) == "Excessive IE ";
    case OutOfMemory(_, _) => assert Lead(e) == "No space to allocate ";
  }

  /** The longest text before the name is "No space to allocate ", 21 characters. */
  lemma LeadIsShort(e: Error)
    ensures |Lead(e)| <= 21
  {
    match e
    case Overflow(_, _) =>
    case InvalidValue(_, _) => assert Lead(e) == "Invalid value of ";
    case UnknownTag(_, _) => assert Lead(e) == "Unknown tag of ";
    case MissingIe(_, _, _) => assert Lead(e) == "Missing IE ";
    case ExtraIe(_, _, _) => assert Lead(e) == "Excessive IE ";
    case OutOfMemory(_, _) => assert Lead(e) == "No space to allocate ";
  }

  /**
   * The message `what()` shows still starts with the quoted name, cut to 64
   * characters, after the text that leads to it: the cut to 127 characters
   * only ever removes trailing text or suffix. When the shown part of the
   * name holds no quote, it is the text between the first two quotes of the
   * message.
   */
  lemma MessageQuotesName(e: Error, bufpos: Option<string>)
    ensures var m, quoted := Message(Render(e), bufpos), Lead(e) + [Quote] + Clip(e.name) + [Quote];
      |quoted| <= |m| && m[..|quoted|] == quoted
    ensures Quote !in Clip(e.name) ==> QuotedName(Message(Render(e), bufpos)) == Clip(e.name)
  {
    var text, lead, name := Render(e), Lead(e), Clip(e.name);
    var quoted := lead + [Quote] + name + [Quote];
    var m := Message(text, bufpos);
    LeadIsShort(e);
    assert text == quoted + Trail(e);
    assert text[..|quoted|] == quoted;
    MessageKeepsPrefix(text, bufpos, |quoted|);
    assert m == quoted + m[|quoted|..];
    if Quote !in name {
      LeadHasNoQuote(e);
      QuotedBetween(lead, name, m[|quoted|..]);
    }
  }

  /** The message keeps the first `k` characters of the text whenever `k` is below the buffer size. */
  lemma MessageKeepsPrefix(text: string, bufpos: Option<string>, k: nat)
    requires k <= |text| && k < WhatSize
    ensures |Message(text, bufpos)| >= k && Message(text, bufpos)[..k] == text[..k]
  {
    var full := if AppendsSuffix(bufpos, |text|) then text + bufpos.value else text;
    assert full[..k] == text[..k];
  }

  lemma QuotedIsCString(lead: string, name: string, trail: string)
    requires IsCString(lead) && IsCString(name) && IsCString(trail)
    ensures IsCString(lead + [Quote] + name + [Quote] + trail)
  {
    var parts := lead + [Quote] + name + [Quote];
    assert IsCString(parts);
    ConcatCString(parts, trail);
  }

  lemma ConcatCString(a: string, b: string)
    requires IsCString(a) && IsCString(b)
    ensures IsCString(a + b)
  {
  }

  lemma TrailIsCString(e: Error)
    ensures IsCString(Trail(e))
  {
    match e
    case Overflow(_, bytes) =>
      DigitsArePlain(bytes, 10);
      ConcatCString(" needs " + Decimal(bytes), " octets.");
    case InvalidValue(_, v) =>
      DigitsArePlain(v, 16);
      ConcatCString(" = 0x" + Hex(v), ".");
    case UnknownTag(_, v) =>
      DigitsArePlain(v, 16);
      ConcatCString(" = 0x" + Hex(v), ".");
    case MissingIe(_, exp, got) =>
      DigitsArePlain(exp, 10);
      DigitsArePlain(got, 10);
      ConcatCString(": at least " + Decimal(exp), " expected, got ");
      ConcatCString(": at least " + Decimal(exp) + " expected, got ", Decimal(got));
      ConcatCString(": at least " + Decimal(exp) + " expected, got " + Decimal(got), ".");
    case ExtraIe(_, exp, got) =>
      DigitsArePlain(exp, 10);
      DigitsArePlain(got, 10);
      ConcatCString(": no more than " + Decimal(exp), " expected, got ");
      ConcatCString(": no more than " + Decimal(exp) + " expected, got ", Decimal(got));
      ConcatCString(": no more than " + Decimal(exp) + " expected, got " + Decimal(got), ".");
    case OutOfMemory(_, bytes) =>
      DigitsArePlain(bytes, 10);
      ConcatCString(": " + Decimal(bytes), " octets.");
  }

  // ----- exception::format -----

  /** The buffer after `snprintf(buf, 128, ...)` produced `text`: its first 127 characters, then NUL. */
  function Snprintf(buf: seq<char>, text: string): (r: seq<char>)
    requires |buf| == WhatSize
    ensures |r| == WhatSize
  {
    var k := Min(|text|, WhatSize - 1);
    text[..k] + [NUL] + buf[k + 1..]
  }

  /** `src` cut or NUL-padded to exactly `n` characters, as `strncpy` writes it. */
  function Padded(src: string, n: nat): (r: seq<char>)
    ensures |r| == n
  {
    seq(n, i requires 0 <= i < n => if i < |src| then src[i] else NUL)
  }

  /** The buffer after `strncpy(buf + at, src, n)`. */
  function Strncpy(buf: seq<char>, at: nat, src: string, n: nat): (r: seq<char>)
    requires at + n <= |buf|
    ensures |r| == |buf|
  {
    buf[..at] + Padded(src, n) + buf[at + n..]
  }

  /** Whether `format` appends the buffer-position suffix after a text of `res` characters. */
  predicate AppendsSuffix(bufpos: Option<string>, res: nat) {
    bufpos.Some? && 0 < res < WhatSize
  }

  /** The whole buffer after `format(bufpos, ...)` produced `text`, starting from `buf`. */
  function Formatted(buf: seq<char>, text: string, bufpos: Option<string>): (r: seq<char>)
    requires |buf| == WhatSize
    ensures |r| == WhatSize
  {
    var s := Snprintf(buf, text);
    var res := |text|;
    var t := if AppendsSuffix(bufpos, res) then Strncpy(s, res, bufpos.value, WhatSize - res - 1) else s;
    t[WhatSize - 1 := NUL]
  }

  /** The message `what()` shows: the text, then the suffix when it is appended, cut to 127 characters. */
  function Message(text: string, bufpos: Option<string>): (m: string)
    ensures |m| < WhatSize
  {
    var full := if AppendsSuffix(bufpos, |text|) then text + bufpos.value else text;
    full[..Min(|full|, WhatSize - 1)]
  }

  /**
   * Whatever the buffer held before, after `format` the last slot is NUL and
   * the buffer reads as `Message(text, bufpos)`: the suffix is never written
   * past the buffer and the text is always terminated inside it.
   */
  lemma FormattedIsMessage(buf: seq<char>, text: string, bufpos: Option<string>)
    requires |buf| == WhatSize
    requires IsCString(text) && (bufpos.Some? ==> IsCString(bufpos.value))
    ensures Formatted(buf, text, bufpos)[WhatSize - 1] == NUL
    ensures CString(Formatted(buf, text, bufpos)) == Message(text, bufpos)
  {
    var f := Formatted(buf, text, bufpos);
    var res := |text|;
    var s := Snprintf(buf, text);
    var m := Message(text, bufpos);
    if AppendsSuffix(bufpos, res) {
      var src := bufpos.value;
      var n := WhatSize - res - 1;
      var t := Strncpy(s, res, src, n);
      assert s[..res] == text;
      assert t[..res] == text;
      var k := Min(|src|, n);
      assert m == text + src[..k];
      assert f[..res + k] == m by {
        forall i | 0 <= i < res + k ensures f[i] == m[i] {
          if i < res {
            assert f[i] == t[i] == text[i];
          } else {
            assert f[i] == t[i] == Padded(src, n)[i - res] == src[i - res];
          }
        }
      }
      assert f[res + k] == NUL by {
        if k < n {
          assert t[res + k] == Padded(src, n)[k];
        }
      }
      CStringAt(f, res + k);
    } else {
      var k := Min(res, WhatSize - 1);
      assert m == text[..k];
      assert f[..k] == m;
      assert f[k] == NUL;
      CStringAt(f, k);
    }
  }

  /**
   * One exception object: its kind with payload and the `m_what` buffer.
   * The buffer is never reassigned, matching the deleted copy assignment.
   */
  class Exception {
    const error: Error
    const what: array<char>

    ghost predicate Valid()
      reads this, what
    {
      what.Length == WhatSize && what[WhatSize - 1] == NUL
    }

    /** Creates the exception of kind `error`, raised with the optional buffer position `bufpos`. */
    constructor (error: Error, bufpos: Option<string>)
      requires IsCString(error.name) && (bufpos.Some? ==> IsCString(bufpos.value))
      ensures this.error == error && fresh(what) && Valid()
      ensures What() == Message(Render(error), bufpos)
    {
      this.error := error;
      what := new char[WhatSize];
      new;
      ghost var before := what[..];
      Format(bufpos, Render(error));
      FormattedIsMessage(before, Render(error), bufpos);
    }

    /** `what()`: the terminated message, always shorter than the buffer. */
    function What(): (s: string)
      reads this, what
      requires Valid()
      ensures |s| < WhatSize && IsCString(s)
    {
      CString(what[..])
    }

    /**
     * `format`: `snprintf` writes `text` (at most 127 characters and a NUL),
     * `strncpy` appends `bufpos` from index `|text|` when it fits, and the
     * last slot is set to NUL.
     */
    method Format(bufpos: Option<string>, text: string)
      requires what.Length == WhatSize
      modifies what
      ensures what[..] == Formatted(old(what[..]), text, bufpos)
    {
      ghost var buf := what[..];
      var res := |text|;
      var k := Min(res, WhatSize - 1);
      var i := 0;
      while i < k
        invariant 0 <= i <= k
        invariant forall m :: 0 <= m < i ==> what[m] == text[m]
        invariant forall m :: i <= m < WhatSize ==> what[m] == buf[m]
      {
        what[i] := text[i];
        i := i + 1;
      }
      what[k] := NUL;
      ghost var printed := Snprintf(buf, text);
      assert forall m :: 0 <= m < WhatSize ==> what[m] == printed[m];
      assert what[..] == printed;
      if AppendsSuffix(bufpos, res) {
        var src := bufpos.value;
        var n := WhatSize - res - 1;
        var j := 0;
        while j < n
          invariant 0 <= j <= n
          invariant forall m :: 0 <= m < res ==> what[m] == printed[m]
          invariant forall m :: res <= m < res + j ==> what[m] == Padded(src, n)[m - res]
          invariant forall m :: res + j <= m < WhatSize ==> what[m] == printed[m]
        {
          what[res + j] := if j < |src| then src[j] else NUL;
          j := j + 1;
        }
        ghost var copied := Strncpy(printed, res, src, n);
        assert forall m :: 0 <= m < WhatSize ==> what[m] == copied[m];
        assert what[..] == copied;
      }
      what[WhatSize - 1] := NUL;
    }
  }
}
