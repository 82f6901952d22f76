/**
 * The label burned into each frame: the timestamp is read back out of the file name with
 * the pattern `_(\d+)\.png$` (falling back to "No timestamp"), rendered as a date, and
 * escaped for ffmpeg's drawtext filter, where `:` and `'` are significant.
 */
module Labels {
  import opened Prelude
  import opened Strings
  import opened Frames

  /**
   * The fallback label. A function rather than a constant, so that the verifier
   * does not evaluate the escaping of this literal wherever a label is escaped.
   */
  function NoTimestamp(): string { "No timestamp" }

  /** The length of the run of digits at the end of `s`. */
  function TrailingDigitCount(s: string): (n: nat)
    ensures n <= |s|
    ensures forall i :: |s| - n <= i < |s| ==> IsDigit(s[i])
    ensures n < |s| ==> !IsDigit(s[|s| - n - 1])
  {
    if s != [] && IsDigit(s[|s| - 1]) then 1 + TrailingDigitCount(s[..|s| - 1]) else 0
  }

  /**
   * The pattern `_(\d+)\.png$` matches `name` at index `p`: an underscore there, one or
   * more digits after it, and `.png` at the very end.
   */
  predicate StampMatchAt(name: string, p: int) {
    EndsWith(name, PngSuffix) && 0 <= p && p + 1 < |name| - 4
    && name[p] == '_' && AllDigits(name[p + 1..|name| - 4])
  }

  /** The group the pattern captures, if it matches: the digits between `_` and `.png`. */
  function ParseStamp(name: string): (r: Option<string>)
    ensures r.Some? ==> StampMatchAt(name, |name| - 5 - |r.value|)
                        && r.value == name[|name| - 4 - |r.value|..|name| - 4]
  {
    if !EndsWith(name, PngSuffix) then None
    else
      var stem := name[..|name| - 4];
      var n := TrailingDigitCount(stem);
      if 0 < n < |stem| && stem[|stem| - n - 1] == '_' then
        var digits := stem[|stem| - n..];
        assert name[|stem| - n..|name| - 4] == digits;
        assert AllDigits(digits) by {
          forall i | 0 <= i < n ensures IsDigit(digits[i]) {
            assert digits[i] == stem[|stem| - n + i];
          }
        }
        assert name[|stem| - n - 1] == '_';
        Some(digits)
      else None
  }

  /**
   * Wherever the pattern matches, `ParseStamp` finds that match: the match position is
   * unique, and a name the pattern matches never gets `None`.
   */
  lemma ParseStampComplete(name: string, p: int)
    requires StampMatchAt(name, p)
    ensures ParseStamp(name) == Some(name[p + 1..|name| - 4])
  {
  }

  /** A capture name gives back the digits it was built from. */
  lemma ParseStampRoundTrip(basename: string, digits: string)
    requires digits != [] && AllDigits(digits)
    ensures ParseStamp(basename + "_" + digits + PngSuffix) == Some(digits)
  {
    var name := basename + "_" + digits + PngSuffix;
    var p := |basename|;
    assert name[p] == '_';
    assert name[p + 1..|name| - 4] == digits;
    assert name[|name| - 4..] == PngSuffix;
    ParseStampComplete(name, p);
  }

  /**
   * The label text of a frame: its timestamp rendered by `format` (month-day-year and the
   * local time of day), or "No timestamp" when the name carries none.
   */
  function Label(name: string, format: nat -> string): string {
    match ParseStamp(name)
    case Some(digits) => format(DigitsValue(digits))
    case None => NoTimestamp()
  }

  /** The label of a capture renders the very timestamp the capture was named with. */
  lemma LabelOfScreenshot(basename: string, stamp: nat, format: nat -> string)
    ensures Label(ScreenshotName(basename, stamp), format) == format(stamp)
  {
    ParseStampRoundTrip(basename, Decimal(stamp));
    DigitsValueOfDecimal(stamp);
  }

  /** A name the pattern does not match is labelled "No timestamp". */
  lemma LabelWithoutStamp(name: string, format: nat -> string)
    requires forall p :: !StampMatchAt(name, p)
    ensures Label(name, format) == NoTimestamp()
  {
  }

  // ---------------------------------------------------------------- escaping

  /** `label.replace(/:/g, '\\:').replace(/'/g, "\\\\'")`. */
  function EscapeLabel(text: string): string {
    ReplaceAll(ReplaceAll(text, ":", "\\:"), "'", "\\\\'")
  }

  /** The escape of one character: `\:` for a colon, `\\'` for a quote, itself otherwise. */
  function EscapeChar(c: char): string {
    if c == ':' then "\\:" else if c == '\'' then "\\\\'" else [c]
  }

  /** Escaping character by character, in one pass. */
  function EscapeEach(s: string): string {
    if s == [] then [] else EscapeChar(s[0]) + EscapeEach(s[1..])
  }

  /** Every colon has a backslash right before it. */
  predicate ColonsEscaped(r: string) {
    forall i :: 0 <= i < |r| && r[i] == ':' ==> 0 < i && r[i - 1] == '\\'
  }

  /** Every quote has two backslashes right before it. */
  predicate QuotesEscaped(r: string) {
    forall i :: 0 <= i < |r| && r[i] == '\'' ==> 1 < i && r[i - 1] == '\\' && r[i - 2] == '\\'
  }

  /** The text with every backslash removed. */
  function DropBackslashes(s: string): string {
    if s == [] then [] else (if s[0] == '\\' then [] else [s[0]]) + DropBackslashes(s[1..])
  }

  lemma {:induction false} DropBackslashesAppend(a: string, b: string)
    ensures DropBackslashes(a + b) == DropBackslashes(a) + DropBackslashes(b)
    decreases |a|
  {
    if a == [] {
      assert a + b == b;
    } else {
      assert (a + b)[0] == a[0] && (a + b)[1..] == a[1..] + b;
      DropBackslashesAppend(a[1..], b);
    }
  }

  /** Without backslashes, dropping them changes nothing. */
  lemma {:induction false} DropBackslashesNone(s: string)
    requires '\\' !in s
    ensures DropBackslashes(s) == s
  {
    if s != [] {
      assert s[0] in s;
      DropBackslashesNone(s[1..]);
      assert s == [s[0]] + s[1..];
    }
  }

  /** The two chained replacements escape each character independently. */
  lemma {:induction false} EscapeLabelIsEscapeEach(s: string)
    ensures EscapeLabel(s) == EscapeEach(s)
  {
    if s != [] {
      var once := ReplaceAll(s, ":", "\\:");
      var head := if s[0] == ':' then "\\:" else [s[0]];
      assert once == head + ReplaceAll(s[1..], ":", "\\:");
      ReplaceCharAppend(head, ReplaceAll(s[1..], ":", "\\:"), '\'', "\\\\'");
      EscapeLabelIsEscapeEach(s[1..]);
      if s[0] == ':' {
        assert ReplaceAll("\\:", "'", "\\\\'") == "\\:" by {
          assert ReplaceAll(":", "'", "\\\\'") == ":" by {
            assert ReplaceAll(":"[1..], "'", "\\\\'") == [];
          }
          assert "\\:"[1..] == ":";
        }
      } else if s[0] == '\'' {
        assert ReplaceAll([s[0]], "'", "\\\\'") == "\\\\'" + ReplaceAll([], "'", "\\\\'");
      } else {
        assert ReplaceAll([s[0]], "'", "\\\\'") == [s[0]] + ReplaceAll([], "'", "\\\\'");
      }
    }
  }

  /**
   * Escaping puts a backslash before every colon and two before every quote, and changes
   * nothing else: removing the backslashes from the result gives those of the input back.
   */
  lemma {:induction false} EscapeEachSafe(s: string)
    ensures ColonsEscaped(EscapeEach(s)) && QuotesEscaped(EscapeEach(s))
    ensures DropBackslashes(EscapeEach(s)) == DropBackslashes(s)
  {
    if s != [] {
      var e, rest := EscapeChar(s[0]), EscapeEach(s[1..]);
      var r := e + rest;
      EscapeEachSafe(s[1..]);
      forall i | 0 <= i < |r| && r[i] == ':' ensures 0 < i && r[i - 1] == '\\' {
        if i >= |e| {
          assert rest[i - |e|] == ':';
          assert r[i - 1] == rest[i - |e| - 1];
        }
      }
      forall i | 0 <= i < |r| && r[i] == '\'' ensures 1 < i && r[i - 1] == '\\' && r[i - 2] == '\\' {
        if i >= |e| {
          assert rest[i - |e|] == '\'';
          assert r[i - 1] == rest[i - |e| - 1] && r[i - 2] == rest[i - |e| - 2];
        }
      }
      DropBackslashesAppend(e, rest);
      DropBackslashesAppend([s[0]], s[1..]);
      assert s == [s[0]] + s[1..];
      if s[0] == ':' {
        assert DropBackslashes(e) == DropBackslashes([s[0]]) by {
          assert e[1..] == [':'];
        }
      } else if s[0] == '\'' {
        assert DropBackslashes(e) == DropBackslashes([s[0]]) by {
          assert e[1..] == "\\'" && e[1..][1..] == "'";
        }
      }
    }
  }

  /**
   * What the source promises of its escaping: colons and quotes are escaped, and for a
   * label without backslashes (every rendered date and "No timestamp") removing the added
   * backslashes restores the label exactly.
   */
  lemma EscapeLabelSafe(text: string)
    ensures ColonsEscaped(EscapeLabel(text)) && QuotesEscaped(EscapeLabel(text))
    ensures DropBackslashes(EscapeLabel(text)) == DropBackslashes(text)
    ensures '\\' !in text ==> DropBackslashes(EscapeLabel(text)) == text
  {
    EscapeLabelIsEscapeEach(text);
    EscapeEachSafe(text);
    if '\\' !in text {
      DropBackslashesNone(text);
    }
  }
}
