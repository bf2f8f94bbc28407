/** Range headers and settings keys (src/immich_bridge/webdav_provider.py `byte_range_from_header`,
  * src/immich_bridge/api/admin.py `_snake` and `_camel`). */
module Codecs {
  import opened Wrappers
  import opened Text

  // ---------- byte ranges ----------

  datatype ByteRange = ByteRange(start: nat, end: Option<nat>)

  predicate ValidRange(r: ByteRange) { r.end.Some? ==> r.start <= r.end.value }

  const UNIT := "bytes="

  /** `s.split(sep, 1)[0]`. */
  function Head(s: string, sep: char): (h: string)
    ensures |h| <= |s| && sep !in h && (sep in s ==> |h| < |s|)
  {
    if s == "" || s[0] == sep then "" else [s[0]] + Head(s[1..], sep)
  }

  /** `byte_range_from_header` on a string. */
  function ByteRangeFromHeader(header: string): (r: Option<ByteRange>)
    ensures r.Some? ==> ValidRange(r.value)
  {
    if StartsWith(header, UNIT) then RangeFromSpec(Strip(Head(header[|UNIT|..], ','), IsSpace)) else None
  }

  function RangeFromSpec(spec: string): (r: Option<ByteRange>)
    ensures r.Some? ==> ValidRange(r.value)
  {
    if StartsWith(spec, "-") || '-' !in spec then None
    else
      var first := Head(spec, '-');
      RangeFromTexts(Strip(first, IsSpace), Strip(spec[|first| + 1..], IsSpace))
  }

  function RangeFromTexts(start: string, end: string): (r: Option<ByteRange>)
    ensures r.Some? ==> ValidRange(r.value)
  {
    if start == "" || PyInt(start).None? || (end != "" && PyInt(end).None?) then None
    else
      var a := PyInt(start).value;
      if a < 0 then None
      else if end == "" then Some(ByteRange(a, None))
      else if PyInt(end).value < a then None
      else Some(ByteRange(a, Some(PyInt(end).value)))
  }

  /** The texts before and after the first dash of the header's first range. */
  ghost predicate Spells(header: string, start: string, end: string) {
    && StartsWith(header, UNIT) && '-' !in start
    && Strip(Head(header[|UNIT|..], ','), IsSpace) == start + ['-'] + end
  }

  /** The texts, white space around them aside, are numbers of a range; an empty end leaves it open. */
  predicate Means(start: string, end: string, r: ByteRange) {
    && PyInt(Strip(start, IsSpace)) == Some(r.start as int)
    && (if r.end.None? then Strip(end, IsSpace) == ""
        else (&& Strip(end, IsSpace) != "" && PyInt(Strip(end, IsSpace)) == Some(r.end.value as int)
              && r.start <= r.end.value))
  }

  /** Which headers are accepted, and what range they give, exactly. */
  lemma HeaderAccepted(header: string, r: ByteRange)
    ensures ByteRangeFromHeader(header) == Some(r)
            <==> exists start, end :: Spells(header, start, end) && Means(start, end, r)
  {
    hide Head, Strip, PyInt;
    if StartsWith(header, UNIT) {
      var spec := Strip(Head(header[|UNIT|..], ','), IsSpace);
      if '-' in spec {
        var first := Head(spec, '-');
        HeadSplits(spec, '-');
        assert Spells(header, first, spec[|first| + 1..]);
        TextsMean(first, spec[|first| + 1..], spec, r);
      }
      forall start, end | Spells(header, start, end)
        ensures '-' in spec && start == Head(spec, '-') && end == spec[|start| + 1..]
      {
        HeadAt(start, '-', end);
        assert spec[|start|] == '-' && spec[|start| + 1..] == end;
      }
    }
  }

  lemma TextsMean(first: string, last: string, spec: string, r: ByteRange)
    requires '-' in spec && first == Head(spec, '-') && |first| < |spec| && last == spec[|first| + 1..]
    ensures RangeFromSpec(spec) == Some(r) <==> Means(first, last, r)
  {
    hide Head, PyInt, Strip, RangeFromTexts;
    NumbersMean(Strip(first, IsSpace), Strip(last, IsSpace), r);
    if StartsWith(spec, "-") {
      DashFirst(spec);
      NoNumber();
    }
  }

  lemma NumbersMean(start: string, end: string, r: ByteRange)
    ensures RangeFromTexts(start, end) == Some(r)
       <==> && PyInt(start) == Some(r.start as int)
            && (if r.end.None? then end == ""
                else end != "" && PyInt(end) == Some(r.end.value as int) && r.start <= r.end.value)
  {
    NoNumber();
    hide PyInt;
  }

  lemma DashFirst(spec: string)
    requires StartsWith(spec, "-")
    ensures Head(spec, '-') == "" && Strip("", IsSpace) == ""
  {
    assert spec[..1] == "-" && spec[0] == '-';
  }

  lemma NoNumber()
    ensures PyInt("") == None
  {
  }

  lemma HeadSplits(s: string, sep: char)
    requires sep in s
    ensures |Head(s, sep)| < |s| && s == Head(s, sep) + [sep] + s[|Head(s, sep)| + 1..]
  {
    HeadIsPrefix(s, sep);
    hide Head;
    var n := |Head(s, sep)|;
    assert s == s[..n] + [s[n]] + s[n + 1..];
  }

  lemma {:induction false} HeadIsPrefix(s: string, sep: char)
    requires sep in s
    ensures s[..|Head(s, sep)|] == Head(s, sep) && s[|Head(s, sep)|] == sep
  {
    if s[0] != sep {
      HeadIsPrefix(s[1..], sep);
      var n := |Head(s[1..], sep)|;
      assert s[..n + 1] == [s[0]] + s[1..][..n];
    }
  }

  /** The Range header sent upstream, section 14.1.2 of RFC 9110. */
  function RangeHeader(r: ByteRange): string {
    UNIT + (Str(r.start) + "-" + (if r.end.Some? then Str(r.end.value) else ""))
  }

  lemma {:induction false} HeadNone(s: string, sep: char)
    requires sep !in s
    ensures Head(s, sep) == s
  {
    if s != "" { HeadNone(s[1..], sep); }
  }

  lemma {:induction false} HeadAt(a: string, sep: char, b: string)
    requires sep !in a
    ensures Head(a + [sep] + b, sep) == a
  {
    if a != "" {
      assert (a + [sep] + b)[1..] == a[1..] + [sep] + b;
      HeadAt(a[1..], sep, b);
    }
  }

  lemma DigitsHaveNo(s: string, c: char)
    requires AllDigits(s) && !IsDigit(c)
    ensures c !in s
  {
  }

  /** A printed range header parses back to the same range. */
  lemma RangeHeaderRoundTrip(r: ByteRange)
    requires ValidRange(r)
    ensures ByteRangeFromHeader(RangeHeader(r)) == Some(r)
  {
    hide PyInt, Str, ByteRangeFromHeader, RangeFromTexts;
    HeaderTexts(Str(r.start), if r.end.Some? then Str(r.end.value) else "");
    PrintedTexts(r);
  }

  lemma PrintedTexts(r: ByteRange)
    requires ValidRange(r)
    ensures RangeFromTexts(Str(r.start), if r.end.Some? then Str(r.end.value) else "") == Some(r)
  {
    PyIntStr(r.start);
    if r.end.Some? { PyIntStr(r.end.value); }
    hide PyInt, Str;
  }

  lemma HeaderTexts(start: string, end: string)
    requires start != "" && AllDigits(start) && AllDigits(end)
    ensures ByteRangeFromHeader(UNIT + (start + "-" + end)) == RangeFromTexts(start, end)
  {
    SpecKept(start, end);
    SpecTexts(start, end);
    hide RangeFromSpec, RangeFromTexts, Head, Strip;
    AfterPrefix(UNIT, start + "-" + end);
  }

  lemma AfterPrefix(p: string, s: string)
    ensures StartsWith(p + s, p) && (p + s)[|p|..] == s
  {
  }

  lemma SpecKept(start: string, end: string)
    requires start != "" && AllDigits(start) && AllDigits(end)
    ensures var spec := start + "-" + end; Strip(Head(spec, ','), IsSpace) == spec
  {
    var spec := start + "-" + end;
    DigitsHaveNo(start, ',');
    DigitsHaveNo(end, ',');
    HeadNone(spec, ',');
    assert IsDigit(spec[0]);
    assert spec[|spec| - 1] == if end == "" then '-' else end[|end| - 1];
    StripFixed(spec, IsSpace);
  }

  lemma SpecTexts(start: string, end: string)
    requires start != "" && AllDigits(start) && AllDigits(end)
    ensures RangeFromSpec(start + "-" + end) == RangeFromTexts(start, end)
  {
    hide RangeFromTexts, Strip;
    var spec := start + "-" + end;
    assert spec == start + ['-'] + end;
    assert IsDigit(spec[0]) && spec[|start|] == '-';
    DigitsHaveNo(start, '-');
    HeadAt(start, '-', end);
    StripDigits(start);
    StripDigits(end);
    assert spec[|start| + 1..] == end;
  }

  lemma StripDigits(s: string)
    requires AllDigits(s)
    ensures Strip(s, IsSpace) == s
  {
    if s != "" { assert IsDigit(s[0]) && IsDigit(s[|s| - 1]); }
    StripFixed(s, IsSpace);
  }

  // ---------- settings keys ----------

  /** Lower-case words, digits and underscores: the names of settings fields. */
  predicate FieldChars(s: string) { forall i :: 0 <= i < |s| ==> IsLower(s[i]) || IsDigit(s[i]) || s[i] == '_' }

  function SnakeChar(c: char): string { if IsUpper(c) then ['_', ToLower(c)] else [c] }

  function SnakeChars(s: string): string {
    if s == "" then "" else SnakeChar(s[0]) + SnakeChars(s[1..])
  }

  lemma SnakeMore(chars: string, s: string, i: nat)
    requires i < |s|
    ensures (chars + SnakeChar(s[i])) + SnakeChars(s[i + 1..]) == chars + SnakeChars(s[i..])
  {
    hide SnakeChar;
    assert s[i..][1..] == s[i + 1..];
  }

  /** The loop of `_snake`, appending characters. */
  method Snake(value: string) returns (r: string)
    ensures r == SnakeOf(value)
  {
    hide SnakeChars, StripLeft;
    var chars := "";
    assert value[0..] == value && "" + SnakeChars(value) == SnakeChars(value);
    for i := 0 to |value|
      invariant chars + SnakeChars(value[i..]) == SnakeChars(value)
    {
      SnakeMore(chars, value, i);
      if IsUpper(value[i]) {
        assert chars + ['_'] + [ToLower(value[i])] == chars + SnakeChar(value[i]);
        chars := chars + ['_'];
        chars := chars + [ToLower(value[i])];
      } else {
        chars := chars + [value[i]];
      }
    }
    NoChars();
    assert value[|value|..] == "" && chars + "" == chars;
    return StripLeft(chars, c => c == '_');
  }

  lemma NoChars()
    ensures SnakeChars("") == ""
  {
  }

  function SnakeOf(value: string): string { StripLeft(SnakeChars(value), c => c == '_') }

  /** `str.capitalize`. */
  function Capitalized(s: string): string {
    if s == "" then "" else [ToUpper(s[0])] + Lower(s[1..])
  }

  function Capitals(parts: seq<string>): string {
    if parts == [] then "" else Capitalized(parts[0]) + Capitals(parts[1..])
  }

  /** `_camel`. */
  function Camel(value: string): string {
    var parts := Split(value, '_');
    parts[0] + Capitals(parts[1..])
  }

  /** Camel case read from the left: `cap` after an underscore. */
  function CamelFrom(s: string, cap: bool): string {
    if s == "" then ""
    else if s[0] == '_' then CamelFrom(s[1..], true)
    else [if cap then ToUpper(s[0]) else s[0]] + CamelFrom(s[1..], false)
  }

  lemma {:induction false} LowerFixed(s: string)
    requires FieldChars(s)
    ensures Lower(s) == s
  {
  }

  lemma {:induction false} SplitFieldChars(s: string)
    requires FieldChars(s)
    ensures forall i :: 0 <= i < |Split(s, '_')| ==> FieldChars(Split(s, '_')[i])
  {
    if s != "" { SplitFieldChars(s[1..]); }
  }

  lemma CapitalizedHead(c: char, first: string)
    requires FieldChars(first)
    ensures Capitalized([c] + first) == [ToUpper(c)] + first
  {
    LowerFixed(first);
    assert ([c] + first)[1..] == first;
  }

  /** Both forms of camel case on a first character and the split rest. */
  lemma CamelStep(c: char, rest: seq<string>)
    requires rest != [] && FieldChars(rest[0]) && c != '_'
    ensures var parts := [[c] + rest[0]] + rest[1..];
            && parts[0] + Capitals(parts[1..]) == [c] + (rest[0] + Capitals(rest[1..]))
            && Capitals(parts) == [ToUpper(c)] + (rest[0] + Capitals(rest[1..]))
  {
    hide Capitals, Capitalized, ToUpper, FieldChars;
    var parts := [[c] + rest[0]] + rest[1..];
    CapitalizedHead(c, rest[0]);
    CapitalsFirst(parts);
    assert parts[0] == [c] + rest[0] && parts[1..] == rest[1..];
    Associate([c], rest[0], Capitals(rest[1..]));
    Associate([ToUpper(c)], rest[0], Capitals(rest[1..]));
  }

  lemma Associate(p: string, q: string, r: string)
    ensures (p + q) + r == p + (q + r)
  {
  }

  lemma CapitalsFirst(parts: seq<string>)
    requires parts != []
    ensures Capitals(parts) == Capitalized(parts[0]) + Capitals(parts[1..])
  {
  }

  lemma {:induction false} CamelIsCamelFrom(s: string)
    requires FieldChars(s)
    ensures Camel(s) == CamelFrom(s, false)
    ensures Capitals(Split(s, '_')) == CamelFrom(s, true)
  {
    hide Capitals, Capitalized, ToUpper, Lower;
    var parts := Split(s, '_');
    CapitalsFirst(parts);
    if s == "" {
      EmptyCapitals();
      assert parts[1..] == [];
    } else {
      var rest := Split(s[1..], '_');
      CamelIsCamelFrom(s[1..]);
      SplitFieldChars(s[1..]);
      if s[0] == '_' {
        assert parts == [""] + rest && parts[1..] == rest;
        EmptyCapitals();
      } else {
        CamelStep(s[0], rest);
      }
    }
  }

  lemma EmptyCapitals()
    ensures Capitals([]) == "" && Capitalized("") == ""
  {
  }

  /** What the way there and back leaves of a name: underscores before a letter. */
  function Kept(s: string, cap: bool): string {
    if s == "" then ""
    else if s[0] == '_' then Kept(s[1..], true)
    else (if cap && IsLower(s[0]) then "_" else "") + [s[0]] + Kept(s[1..], false)
  }

  lemma {:induction false} ThereAndBack(s: string, cap: bool)
    requires FieldChars(s)
    ensures SnakeChars(CamelFrom(s, cap)) == Kept(s, cap)
  {
    if s != "" {
      if s[0] == '_' {
        ThereAndBack(s[1..], true);
      } else {
        ThereAndBack(s[1..], false);
        var c := if cap then ToUpper(s[0]) else s[0];
        assert ([c] + CamelFrom(s[1..], false))[1..] == CamelFrom(s[1..], false);
        assert IsLower(s[0]) ==> ToLower(ToUpper(s[0])) == s[0];
      }
    }
  }

  /** Every underscore has a letter after it. */
  predicate LetterAfter(s: string) { forall i :: 0 <= i < |s| && s[i] == '_' ==> i + 1 < |s| && IsLower(s[i + 1]) }

  lemma LetterAfterFirst(c: char, t: string)
    ensures LetterAfter([c] + t) <==> LetterAfter(t) && (c == '_' ==> t != "" && IsLower(t[0]))
  {
    var s := [c] + t;
    assert forall i :: 0 <= i < |t| ==> t[i] == s[i + 1];
    if LetterAfter(t) && (c == '_' ==> t != "" && IsLower(t[0])) {
      forall i | 0 <= i < |s| && s[i] == '_'
        ensures i + 1 < |s| && IsLower(s[i + 1])
      {
        if i > 0 { assert t[i - 1] == '_'; }
      }
    }
    if LetterAfter(s) {
      assert s[0] == c;
      forall i | 0 <= i < |t| && t[i] == '_'
        ensures i + 1 < |t| && IsLower(t[i + 1])
      {
        assert s[i + 1] == '_';
      }
    }
  }

  lemma SameTail(p: string, x: string, y: string)
    ensures p + x == p + y <==> x == y
  {
    if p + x == p + y { assert (p + x)[|p|..] == x && (p + y)[|p|..] == y; }
  }

  lemma {:induction false} KeptWhole(s: string)
    requires FieldChars(s)
    ensures |Kept(s, false)| <= |s| && |Kept(s, true)| <= |s| + 1
    ensures Kept(s, false) == s <==> LetterAfter(s)
    ensures Kept(s, true) == "_" + s <==> s != "" && IsLower(s[0]) && LetterAfter(s)
  {
    if s != "" {
      var c, t := s[0], s[1..];
      KeptWhole(t);
      assert s == [c] + t;
      LetterAfterFirst(c, t);
      hide LetterAfter, FieldChars;
      KeptFirst(c, t);
      if c == '_' {
        KeptUnderscore(t);
      } else {
        SameTail([c], Kept(t, false), t);
        SameTail("_", Kept(s, false), s);
      }
    }
  }

  lemma KeptFirst(c: char, t: string)
    ensures c == '_' ==> Kept([c] + t, false) == Kept(t, true) == Kept([c] + t, true)
    ensures c != '_' ==> Kept([c] + t, false) == [c] + Kept(t, false)
    ensures c != '_' ==>
              Kept([c] + t, true) == if IsLower(c) then "_" + ([c] + Kept(t, false)) else [c] + Kept(t, false)
  {
    assert ([c] + t)[1..] == t;
  }

  /** The underscore before another is lost, so the name is too short. */
  lemma KeptUnderscore(t: string)
    requires |Kept(t, true)| <= |t| + 1
    ensures Kept(t, true) != "_" + ("_" + t)
    ensures "_" + t == ['_'] + t
  {
  }

  /** A settings field name survives the way to camel case and back exactly when each underscore is
    * inside it and followed by a letter. */
  lemma SnakeInvertsCamel(s: string)
    requires FieldChars(s)
    ensures SnakeOf(Camel(s)) == s <==> LetterAfter(s) && (s == "" || s[0] != '_')
  {
    hide Camel, CamelFrom, SnakeChars;
    CamelIsCamelFrom(s);
    ThereAndBack(s, false);
    KeptWhole(s);
    StripLeftEnd(Kept(s, false), c => c == '_');
    var kept := Kept(s, false);
    if s != "" && s[0] != '_' { assert kept[0] == s[0]; }
  }
}
