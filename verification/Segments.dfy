/** Path segments that every DAV client accepts (src/immich_bridge/fs_model.py, `safe_segment`). */
module Segments {
  import opened Wrappers
  import opened Text

  predicate Unsafe(c: char) { c in "<>:\"/\\|?*" || c < ' ' }

  predicate SpaceOrDot(c: char) { c == ' ' || c == '.' }

  /** `WINDOWS_UNSAFE_CHARS.sub("-", s)`. */
  function Replaced(s: string): (r: string)
    ensures |r| == |s|
  {
    seq(|s|, i requires 0 <= i < |s| => if Unsafe(s[i]) then '-' else s[i])
  }

  /** `WHITESPACE.sub(" ", s)`: each run of white space becomes one blank. */
  function Collapsed(s: string): (r: string)
    ensures |r| <= |s|
  {
    if s == [] then []
    else if !IsSpace(s[0]) then [s[0]] + Collapsed(s[1..])
    else if |s| > 1 && IsSpace(s[1]) then Collapsed(s[1..])
    else " " + Collapsed(s[1..])
  }

  /** Unsafe characters replaced, blanks collapsed, ends trimmed. */
  function Trimmed(text: string): string {
    Strip(Collapsed(Replaced(text)), SpaceOrDot)
  }

  function Cut(kept: string, maxLength: nat): string {
    Strip(if |kept| <= maxLength then kept else kept[..maxLength], SpaceOrDot)
  }

  function SafeSegment(value: string, fallback: string, maxLength: nat): string {
    var trimmed := Trimmed(if value == "" then fallback else value);
    var cut := Cut(if trimmed == "" then fallback else trimmed, maxLength);
    if cut == "" then fallback else cut
  }

  /** No unsafe character and no two blanks in a row. */
  predicate Clean(s: string) {
    && (forall i :: 0 <= i < |s| ==> !Unsafe(s[i]))
    && (forall i :: 0 < i < |s| ==> !(s[i - 1] == ' ' && s[i] == ' '))
  }

  /** A segment a client can store unchanged. */
  predicate Safe(s: string, maxLength: nat) {
    0 < |s| <= maxLength && Clean(s) && !SpaceOrDot(s[0]) && !SpaceOrDot(s[|s| - 1])
  }

  predicate NoneUnsafe(s: string) { forall i :: 0 <= i < |s| ==> !Unsafe(s[i]) }

  lemma {:induction false} CollapsedStart(s: string)
    requires NoneUnsafe(s) && s != []
    ensures Collapsed(s) != [] && (Collapsed(s)[0] == ' ' <==> s[0] == ' ')
  {
    assert IsSpace(s[0]) ==> s[0] == ' ';
    if |s| > 1 {
      assert s[1..][0] == s[1] && NoneUnsafe(s[1..]);
      CollapsedStart(s[1..]);
    }
  }

  lemma {:induction false} CollapsedClean(s: string)
    requires NoneUnsafe(s)
    ensures Clean(Collapsed(s))
  {
    if s != [] {
      assert NoneUnsafe(s[1..]);
      CollapsedClean(s[1..]);
      assert IsSpace(s[0]) ==> s[0] == ' ';
      if |s| > 1 { CollapsedStart(s[1..]); }
    }
  }

  lemma {:induction false} CollapsedFixed(s: string)
    requires Clean(s)
    ensures Collapsed(s) == s
  {
    if s != [] {
      CleanSlice(s, 1, |s|);
      CollapsedFixed(s[1..]);
      assert s == [s[0]] + s[1..];
      assert IsSpace(s[0]) ==> s[0] == ' ';
    }
  }

  lemma CleanSlice(s: string, lo: nat, hi: nat)
    requires Clean(s) && lo <= hi <= |s|
    ensures Clean(s[lo..hi])
  {
    assert forall i :: 0 <= i < hi - lo ==> s[lo..hi][i] == s[lo + i];
    forall i | 0 < i < hi - lo
      ensures !(s[lo..hi][i - 1] == ' ' && s[lo..hi][i] == ' ')
    {
      assert s[lo..hi][i - 1] == s[lo + i - 1] && s[lo..hi][i] == s[lo + i];
    }
  }

  lemma StripClean(s: string)
    requires Clean(s)
    ensures Clean(Strip(s, SpaceOrDot))
    ensures var r := Strip(s, SpaceOrDot); r == "" || Safe(r, |s|)
    ensures s != "" && !SpaceOrDot(s[0]) ==> Strip(s, SpaceOrDot) != ""
  {
    hide Clean;
    var l := StripLeft(s, SpaceOrDot);
    StripLeftEnd(s, SpaceOrDot);
    StripRightStart(l, SpaceOrDot);
    CleanSlice(s, |s| - |l|, |s|);
    assert s[|s| - |l|..|s|] == l;
    var r := StripRight(l, SpaceOrDot);
    CleanSlice(l, 0, |r|);
    if l != "" { StripRightKeepsFirst(l); }
  }

  lemma {:induction false} StripRightKeepsFirst(s: string)
    requires s != "" && !SpaceOrDot(s[0])
    ensures StripRight(s, SpaceOrDot) != "" && StripRight(s, SpaceOrDot)[0] == s[0]
  {
    if SpaceOrDot(s[|s| - 1]) { StripRightKeepsFirst(s[..|s| - 1]); }
  }

  lemma TrimmedSafe(text: string)
    ensures Trimmed(text) == "" || Safe(Trimmed(text), |Trimmed(text)|)
  {
    CollapsedClean(Replaced(text));
    StripClean(Collapsed(Replaced(text)));
  }

  lemma CutSafe(kept: string, maxLength: nat)
    requires Safe(kept, |kept|)
    ensures Cut(kept, maxLength) == "" || Safe(Cut(kept, maxLength), maxLength)
  {
    var cut := if |kept| <= maxLength then kept else kept[..maxLength];
    CleanSlice(kept, 0, |cut|);
    assert kept[0..|cut|] == cut;
    StripClean(cut);
  }

  /** Whatever the input, the segment is safe whenever the fallback is. */
  lemma SafeSegmentIsSafe(value: string, fallback: string, maxLength: nat)
    requires Safe(fallback, maxLength)
    ensures Safe(SafeSegment(value, fallback, maxLength), maxLength)
  {
    var trimmed := Trimmed(if value == "" then fallback else value);
    TrimmedSafe(if value == "" then fallback else value);
    CutSafe(if trimmed == "" then fallback else trimmed, maxLength);
  }

  /** The fixed points of `safe_segment` are exactly the safe segments; hence it is idempotent. */
  lemma SafeSegmentFixedPoints(value: string, fallback: string, maxLength: nat)
    requires Safe(fallback, maxLength)
    ensures SafeSegment(value, fallback, maxLength) == value <==> Safe(value, maxLength)
    ensures var once := SafeSegment(value, fallback, maxLength);
            SafeSegment(once, fallback, maxLength) == once
  {
    SafeSegmentIsSafe(value, fallback, maxLength);
    if Safe(value, maxLength) { SafeIsFixed(value, fallback, maxLength); }
    SafeIsFixed(SafeSegment(value, fallback, maxLength), fallback, maxLength);
  }

  lemma SafeIsFixed(s: string, fallback: string, maxLength: nat)
    requires Safe(s, maxLength)
    ensures SafeSegment(s, fallback, maxLength) == s
  {
    assert Replaced(s) == s;
    CollapsedFixed(s);
    StripFixed(s, SpaceOrDot);
  }

  lemma SafeHasNoSeparator(s: string, maxLength: nat)
    requires Safe(s, maxLength)
    ensures s != "" && '/' !in s && '\\' !in s && s[0] != '.'
  {
    assert forall c :: c in s ==> !Unsafe(c);
    assert Unsafe('/') && Unsafe('\\');
  }

  /** `ViewPayload.name`: one to 120 characters, and then `validate_name`; None for the ValueError. */
  function ValidatedName(value: string): Option<string> {
    var name := Strip(value, IsSpace);
    if !(1 <= |value| <= 120) then None
    else if name == "" || '/' in name || '\\' in name then None
    else if name == "." || name == ".." then None
    else if SafeSegment(name, "View", 140) != name then None
    else Some(name)
  }

  /** A payload's name is accepted exactly when it has at most 120 characters and is, but for white space
    * around it, a safe segment; the name kept is its own folder name. */
  lemma ValidatedNames(value: string)
    ensures ValidatedName(value)
         == if |value| <= 120 && Safe(Strip(value, IsSpace), 140) then Some(Strip(value, IsSpace)) else None
    ensures ValidatedName(value).Some? ==>
              SafeSegment(ValidatedName(value).value, "View", 140) == ValidatedName(value).value
  {
    hide SafeSegment, Safe, Strip;
    var name := Strip(value, IsSpace);
    ViewIsSafe();
    SafeSegmentFixedPoints(name, "View", 140);
    if Safe(name, 140) {
      SafeHasNoSeparator(name, 140);
      assert name[0] != "."[0] && name[0] != ".."[0];
      if value == "" { StripNothing(); }
    }
  }

  lemma ViewIsSafe()
    ensures Safe("View", 140)
  {
  }

  lemma StripNothing()
    ensures Strip("", IsSpace) == ""
  {
  }
}
