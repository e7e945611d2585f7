/** internal/frameworks/goravel: finding a handler in its source file and taking the one panic line
    out of it. The regular expression for the handler's head is a language of texts without
    context; FindStringIndex is a leftmost place where some text of it stands. */
module Goravel {
  import opened Wrappers
  import opened Text
  import opened SourceFile

  const PANIC := "panic("

  // ---------------------------------------------------------------- the handler

  ghost predicate HeadAt(isHead: string -> bool, content: string, p: nat, q: nat) {
    p <= q <= |content| && isHead(content[p..q])
  }

  /** FindStringIndex. */
  ghost predicate IsLocation(isHead: string -> bool, content: string, p: nat, q: nat) {
    HeadAt(isHead, content, p, q) && forall a: nat, b: nat :: a < p ==> !HeadAt(isHead, content, a, b)
  }

  /** Opened braces that are not closed. */
  function Depth(s: string): int {
    if s == "" then 0
    else Depth(s[..|s| - 1]) + if s[|s| - 1] == '{' then 1 else if s[|s| - 1] == '}' then -1 else 0
  }

  /** end is the first place after the brace at `open` where every brace is closed again. */
  ghost predicate IsBlockEnd(content: string, open: nat, end: nat) {
    && open < end <= |content|
    && Depth(content[open..end]) == 0
    && forall k :: open < k < end ==> Depth(content[open..k]) > 0
  }

  ghost predicate FirstBrace(content: string, from: nat, open: nat) {
    from <= open < |content| && content[open] == '{' && '{' !in content[from..open]
  }

  lemma DepthSnoc(content: string, open: nat, k: nat)
    requires open <= k < |content|
    ensures Depth(content[open..k + 1]) == Depth(content[open..k])
              + if content[k] == '{' then 1 else if content[k] == '}' then -1 else 0
  {
    assert content[open..k + 1][..k - open] == content[open..k];
  }

  lemma BraceInside(content: string, from: nat, a: nat, b: nat)
    requires from <= a < b <= |content| && content[a] == '{'
    ensures '{' in content[from..b]
  {
    assert content[from..b][a - from] == '{';
  }

  /** extractGoMethod: the shortest block whose braces balance, everything when they never do, and
      a shortened excerpt when there is no brace at all. */
  method ExtractGoMethod(content: string, location: Option<(nat, nat)>, excerpt: string -> string)
    returns (r: Option<string>)
    requires location.Some? ==> location.value.0 <= location.value.1 <= |content|
    ensures r.None? <==> location.None?
    ensures location.Some? && '{' !in content[location.value.1..] ==> r == Some(excerpt(content[location.value.0..]))
    ensures location.Some? ==> forall open: nat, end: nat ::
              FirstBrace(content, location.value.1, open) && IsBlockEnd(content, open, end) ==>
              r == Some(content[location.value.0..end])
    ensures location.Some? ==> forall open: nat ::
              FirstBrace(content, location.value.1, open) && !(exists end: nat :: IsBlockEnd(content, open, end)) ==>
              r == Some(content[location.value.0..])
  {
    if location.None? { return None; }
    var p, open := location.value.0, location.value.1;
    while open < |content| && content[open] != '{'
      invariant location.value.1 <= open <= |content|
      invariant '{' !in content[location.value.1..open]
    {
      open := open + 1;
    }
    if open == |content| {
      assert content[location.value.1..open] == content[location.value.1..];
      return Some(excerpt(content[p..]));
    }
    assert forall o: nat :: FirstBrace(content, location.value.1, o) ==> o == open by {
      forall o: nat | FirstBrace(content, location.value.1, o) ensures o == open {
        if o < open { BraceInside(content, location.value.1, o, open); }
        if open < o { BraceInside(content, location.value.1, open, o); }
      }
    }
    var depth, index := 0, open;
    while index < |content|
      invariant open <= index <= |content|
      invariant depth == Depth(content[open..index])
      invariant forall k :: open < k <= index ==> Depth(content[open..k]) > 0
    {
      DepthSnoc(content, open, index);
      if content[index] == '{' {
        depth := depth + 1;
      } else if content[index] == '}' {
        depth := depth - 1;
        if depth == 0 {
          assert IsBlockEnd(content, open, index + 1);
          return Some(content[p..index + 1]);
        }
      }
      index := index + 1;
    }
    return Some(content[p..]);
  }

  lemma OccurrenceHasHead(isHead: string -> bool, content: string, p: nat, q: nat, end: nat, a: nat)
    requires HeadAt(isHead, content, p, q) && q <= end <= |content| && OccursAt(content, content[p..end], a)
    ensures HeadAt(isHead, content, a, a + (q - p))
  {
    var handler := content[p..end];
    assert content[a..a + (q - p)] == content[a..a + |handler|][..q - p];
    assert handler[..q - p] == content[p..q];
  }

  /** A text that starts with the head found first occurs in the file nowhere before it. */
  lemma HandlerIsFirstOccurrence(isHead: string -> bool, content: string, p: nat, q: nat, end: nat)
    requires IsLocation(isHead, content, p, q) && q <= end <= |content|
    ensures IsFirst(content, content[p..end], p)
  {
    forall a | 0 <= a < p ensures !OccursAt(content, content[p..end], a) {
      if OccursAt(content, content[p..end], a) { OccurrenceHasHead(isHead, content, p, q, end, a); }
    }
  }

  // ---------------------------------------------------------------- lines

  /** strings.SplitAfter(s, "\n"). */
  function SplitAfter(s: string): (lines: seq<string>)
    ensures lines != []
  {
    if s == "" then [""]
    else
      var rest := SplitAfter(s[1..]);
      if s[0] == '\n' then ["\n"] + rest else [[s[0]] + rest[0]] + rest[1..]
  }

  /** strings.Join(lines, ""). */
  function Concat(lines: seq<string>): string {
    if lines == [] then "" else lines[0] + Concat(lines[1..])
  }

  predicate HasPanic(line: string) {
    Contains(line, PANIC)
  }

  function PanicCount(lines: seq<string>): nat {
    if lines == [] then 0 else PanicCount(lines[..|lines| - 1]) + if HasPanic(lines[|lines| - 1]) then 1 else 0
  }

  /** AnalyzePanicPatchSafety: safe means exactly one line with a panic. */
  method AnalyzePanicPatchSafety(handler: string) returns (safe: bool, count: nat)
    ensures count == PanicCount(Split(handler, '\n'))
    ensures safe <==> count == 1
  {
    var lines := Split(handler, '\n');
    count := 0;
    for i := 0 to |lines|
      invariant count == PanicCount(lines[..i])
    {
      assert lines[..i + 1][..i] == lines[..i];
      if HasPanic(lines[i]) { count := count + 1; }
    }
    assert lines[..|lines|] == lines;
    safe := count == 1;
  }

  lemma {:induction false} ConcatSplitAfter(s: string)
    ensures Concat(SplitAfter(s)) == s
  {
    if s != "" {
      var rest := SplitAfter(s[1..]);
      ConcatSplitAfter(s[1..]);
      assert Concat(rest) == rest[0] + Concat(rest[1..]);
      if s[0] == '\n' {
        assert (["\n"] + rest)[1..] == rest;
      } else {
        assert ([[s[0]] + rest[0]] + rest[1..])[1..] == rest[1..];
      }
    }
  }

  /** The lines of a are those of b with a newline after all but the last. */
  ghost predicate EndedCopy(a: seq<string>, b: seq<string>) {
    |a| == |b| && forall i :: 0 <= i < |a| ==> a[i] == b[i] + if i < |a| - 1 then "\n" else ""
  }

  lemma CopyOn(c: char, a: seq<string>, b: seq<string>)
    requires EndedCopy(a, b) && a != []
    ensures EndedCopy(["\n"] + a, [""] + b)
    ensures EndedCopy([[c] + a[0]] + a[1..], [[c] + b[0]] + b[1..])
  {
    assert "" + "\n" == "\n";
    assert [c] + a[0] == [c] + b[0] + if |a| > 1 then "\n" else "";
  }

  /** The two ways of cutting a text into lines differ in the newline at the end of a line. */
  lemma {:induction false} SameLines(s: string)
    ensures EndedCopy(SplitAfter(s), Split(s, '\n'))
  {
    if s != "" {
      SameLines(s[1..]);
      CopyOn(s[0], SplitAfter(s[1..]), Split(s[1..], '\n'));
    }
  }

  /** A newline at the end neither makes nor breaks a panic. */
  lemma NewlineIsNoPanic(line: string)
    ensures HasPanic(line + "\n") <==> HasPanic(line)
  {
    var s := line + "\n";
    forall i | 0 <= i <= |s| && OccursAt(s, PANIC, i) ensures OccursAt(line, PANIC, i) {
      assert s[i..i + |PANIC|][|PANIC| - 1] == '(';
      assert i + |PANIC| <= |line|;
      assert s[i..i + |PANIC|] == line[i..i + |PANIC|];
    }
    forall i | 0 <= i <= |line| && OccursAt(line, PANIC, i) ensures OccursAt(s, PANIC, i) {
      assert s[i..i + |PANIC|] == line[i..i + |PANIC|];
    }
  }

  lemma {:induction false} SameCount(a: seq<string>, b: seq<string>)
    requires |a| == |b| && forall i :: 0 <= i < |a| ==> (HasPanic(a[i]) <==> HasPanic(b[i]))
    ensures PanicCount(a) == PanicCount(b)
  {
    if a != [] { SameCount(a[..|a| - 1], b[..|b| - 1]); }
  }

  lemma PanicsInText(s: string)
    ensures PanicCount(SplitAfter(s)) == PanicCount(Split(s, '\n'))
  {
    SameLines(s);
    var a, b := SplitAfter(s), Split(s, '\n');
    forall i | 0 <= i < |a| ensures HasPanic(a[i]) <==> HasPanic(b[i]) {
      NewlineIsNoPanic(b[i]);
      assert b[i] + "" == b[i];
    }
    SameCount(a, b);
  }

  /** Exactly one line has it. */
  lemma {:induction false} OnlyPanicLine(lines: seq<string>) returns (k: nat)
    requires PanicCount(lines) == 1
    ensures k < |lines| && HasPanic(lines[k]) && forall i :: 0 <= i < |lines| && i != k ==> !HasPanic(lines[i])
  {
    var init, last := lines[..|lines| - 1], lines[|lines| - 1];
    if HasPanic(last) {
      NoPanicLine(init);
      k := |lines| - 1;
      forall i | 0 <= i < |lines| && i != k ensures !HasPanic(lines[i]) { assert lines[i] == init[i]; }
    } else {
      k := OnlyPanicLine(init);
      forall i | 0 <= i < |lines| && i != k
          ensures !HasPanic(lines[i]) { if i < |init| { assert lines[i] == init[i]; } }
    }
  }

  lemma {:induction false} NoPanicLine(lines: seq<string>)
    ensures PanicCount(lines) == 0 <==> forall i :: 0 <= i < |lines| ==> !HasPanic(lines[i])
  {
    if lines != [] {
      NoPanicLine(lines[..|lines| - 1]);
      assert lines == lines[..|lines| - 1] + [lines[|lines| - 1]];
    }
  }

  // ---------------------------------------------------------------- taking the panic line out

  function Patch(lines: seq<string>, skipNextBlank: bool): seq<string> {
    if lines == [] then []
    else if skipNextBlank && Blank(lines[0]) then Patch(lines[1..], false)
    else if !HasPanic(lines[0]) then [lines[0]] + Patch(lines[1..], false)
    else Patch(lines[1..], true)
  }

  lemma PatchFrom(lines: seq<string>, i: nat, skip: bool)
    requires i < |lines|
    ensures var rest, line := lines[i + 1..], lines[i];
            Patch(lines[i..], skip) ==
              if skip && Blank(line) then Patch(rest, false)
              else if !HasPanic(line) then [line] + Patch(rest, false)
              else Patch(rest, true)
    ensures PanicCount(lines[..i + 1]) == PanicCount(lines[..i]) + if HasPanic(lines[i]) then 1 else 0
  {
    assert lines[i..][1..] == lines[i + 1..] && lines[..i + 1][..i] == lines[..i];
  }

  /** The loop of handlerScopedPanicSourceEdit. */
  method PatchLines(lines: seq<string>) returns (patched: seq<string>, removed: bool)
    ensures patched == Patch(lines, false)
    ensures removed <==> PanicCount(lines) > 0
  {
    patched, removed := [], false;
    var skipNextBlank := false;
    for i := 0 to |lines|
      invariant patched + Patch(lines[i..], skipNextBlank) == Patch(lines, false)
      invariant removed <==> PanicCount(lines[..i]) > 0
    {
      PatchFrom(lines, i, skipNextBlank);
      var line := lines[i];
      if skipNextBlank && Blank(line) {
        BlankIsNoPanic(line);
        skipNextBlank := false;
      } else {
        skipNextBlank := false;
        if !HasPanic(line) {
          PlusAssociates(patched, [line], Patch(lines[i + 1..], false));
          patched := patched + [line];
        } else {
          removed, skipNextBlank := true, true;
        }
      }
    }
    assert lines[..|lines|] == lines;
  }

  lemma BlankIsNoPanic(line: string)
    requires Blank(line)
    ensures !HasPanic(line)
  {
    forall i | 0 <= i <= |line| ensures !OccursAt(line, PANIC, i) {
      if i + |PANIC| <= |line| { assert Space(line[i]) && line[i..i + |PANIC|][0] == line[i]; }
    }
  }

  /** handlerScopedPanicSourceEdit after the handler has been found. */
  method HandlerScopedPanicSourceEdit(handler: string) returns (after: Option<string>)
    ensures after.Some? <==> PanicCount(Split(handler, '\n')) == 1
    ensures after.Some? ==> after.value == Concat(Patch(SplitAfter(handler), false))
  {
    var safe, _ := AnalyzePanicPatchSafety(handler);
    if !safe { return None; }
    PanicsInText(handler);
    var patched, removed := PatchLines(SplitAfter(handler));
    if !removed { return None; }
    after := Some(Concat(patched));
  }

  lemma {:induction false} PatchNothing(lines: seq<string>, skip: bool)
    requires forall i :: 0 <= i < |lines| ==> !HasPanic(lines[i])
    ensures Patch(lines, skip) == if skip && lines != [] && Blank(lines[0]) then lines[1..] else lines
    decreases |lines|
  {
    if lines != [] {
      PatchNothing(lines[1..], false);
      assert [lines[0]] + lines[1..] == lines;
    }
  }

  /** How many lines go: the panic line and a blank line right after it. */
  function Gone(lines: seq<string>, k: nat): nat
    requires k < |lines|
  {
    if k + 1 < |lines| && Blank(lines[k + 1]) then 2 else 1
  }

  lemma {:induction false} PatchOne(lines: seq<string>, k: nat)
    requires k < |lines| && HasPanic(lines[k]) && forall i :: 0 <= i < |lines| && i != k ==> !HasPanic(lines[i])
    ensures Patch(lines, false) == lines[..k] + lines[k + Gone(lines, k)..]
  {
    if k == 0 {
      PatchNothing(lines[1..], true);
      if |lines| > 1 { assert lines[1..][1..] == lines[2..]; }
      assert [] + lines[Gone(lines, 0)..] == lines[Gone(lines, 0)..];
    } else {
      PatchOne(lines[1..], k - 1);
      assert Gone(lines[1..], k - 1) == Gone(lines, k);
      assert lines[1..][k - 1 + Gone(lines, k)..] == lines[k + Gone(lines, k)..];
      assert lines[..k] == [lines[0]] + lines[1..][..k - 1];
    }
  }

  // ---------------------------------------------------------------- lines survive the join

  predicate Ended(line: string) {
    line != "" && line[|line| - 1] == '\n' && '\n' !in line[..|line| - 1]
  }

  /** Every line but perhaps the last ends in its only newline. */
  ghost predicate Lines(lines: seq<string>) {
    && (forall i :: 0 <= i < |lines| - 1 ==> Ended(lines[i]))
    && (lines != [] ==> Ended(lines[|lines| - 1]) || '\n' !in lines[|lines| - 1])
  }

  lemma SplitAfterLines(s: string)
    ensures Lines(SplitAfter(s))
  {
    SameLines(s);
    var a, b := SplitAfter(s), Split(s, '\n');
    forall i | 0 <= i < |a| - 1 ensures Ended(a[i]) {
      assert a[i][..|a[i]| - 1] == b[i];
    }
    assert a[|a| - 1] == b[|a| - 1] + "" == b[|a| - 1];
  }

  lemma {:induction false} SplitAfterEnded(line: string, rest: string)
    requires Ended(line)
    ensures SplitAfter(line + rest) == [line] + SplitAfter(rest)
    decreases |line|
  {
    if |line| == 1 {
      assert line == "\n" && (line + rest)[1..] == rest;
    } else {
      assert line[0] != '\n' by { assert line[0] in line[..|line| - 1]; }
      assert line[1..][..|line| - 2] == line[..|line| - 1][1..];
      SplitAfterEnded(line[1..], rest);
      assert (line + rest)[1..] == line[1..] + rest;
      assert [line[0]] + line[1..] == line;
    }
  }

  lemma {:induction false} SplitAfterPlain(line: string)
    requires '\n' !in line
    ensures SplitAfter(line) == [line]
  {
    if line != "" {
      SplitAfterPlain(line[1..]);
      assert [line[0]] + line[1..] == line;
    }
  }

  /** Cutting the joined lines gives them back, and an empty one when the last was ended. */
  lemma {:induction false} Resplit(lines: seq<string>)
    requires lines != [] && Lines(lines)
    ensures SplitAfter(Concat(lines)) == if Ended(lines[|lines| - 1]) then lines + [""] else lines
  {
    if |lines| == 1 {
      assert Concat(lines[1..]) == "" && lines[0] + "" == lines[0];
      if Ended(lines[0]) {
        SplitAfterEnded(lines[0], "");
        assert lines == [lines[0]];
      } else {
        SplitAfterPlain(lines[0]);
      }
    } else {
      SplitAfterEnded(lines[0], Concat(lines[1..]));
      Resplit(lines[1..]);
      assert [lines[0]] + lines[1..] == lines;
    }
  }

  lemma JoinedHasNoPanic(lines: seq<string>)
    requires Lines(lines) && PanicCount(lines) == 0
    ensures PanicCount(SplitAfter(Concat(lines))) == 0
  {
    EmptyIsNoPanic();
    if lines == [] {
      NoPanicLine([""]);
    } else {
      Resplit(lines);
      assert (lines + [""])[..|lines|] == lines;
    }
  }

  lemma EmptyIsNoPanic()
    ensures !HasPanic("")
  {
  }

  // ---------------------------------------------------------------- main results

  lemma KeptLines(lines: seq<string>, k: nat)
    requires Lines(lines) && k < |lines| && forall i :: 0 <= i < |lines| && i != k ==> !HasPanic(lines[i])
    ensures var kept := lines[..k] + lines[k + Gone(lines, k)..]; Lines(kept) && PanicCount(kept) == 0
  {
    var kept := lines[..k] + lines[k + Gone(lines, k)..];
    forall i | 0 <= i < |kept| ensures kept[i] == lines[if i < k then i else i + Gone(lines, k)] {}
    NoPanicLine(kept);
  }

  /** after is the text of handler without line k and a blank line right after it. */
  ghost predicate WithoutLine(handler: string, k: nat, after: string) {
    var lines := SplitAfter(handler);
    k < |lines| && HasPanic(lines[k]) && after == Concat(lines[..k] + lines[k + Gone(lines, k)..])
  }

  /** A safe patch takes out the one panic line and at most one blank line right after it, keeps
      every other line, and leaves a handler without a panic. */
  lemma PanicLineRemoved(handler: string) returns (k: nat)
    requires PanicCount(Split(handler, '\n')) == 1
    ensures WithoutLine(handler, k, Concat(Patch(SplitAfter(handler), false)))
    ensures PanicCount(Split(Concat(Patch(SplitAfter(handler), false)), '\n')) == 0
  {
    var lines := SplitAfter(handler);
    PanicsInText(handler);
    SplitAfterLines(handler);
    k := OnlyPanicLine(lines);
    PatchOne(lines, k);
    KeptLines(lines, k);
    JoinedHasNoPanic(lines[..k] + lines[k + Gone(lines, k)..]);
    PanicsInText(Concat(Patch(lines, false)));
  }

  lemma HandlerReplaced(isHead: string -> bool, content: string, p: nat, q: nat, end: nat, after: string)
    requires IsLocation(isHead, content, p, q) && q <= end <= |content|
    ensures Contains(content, content[p..end])
    ensures ReplaceFirst(content, content[p..end], after) == content[..p] + after + content[end..]
  {
    HandlerIsFirstOccurrence(isHead, content, p, q, end);
    ReplaceFirstAt(content, content[p..end], after, p);
  }

  lemma NothingToPatch()
    ensures PanicCount(Split("", '\n')) == 0
  {
    EmptyIsNoPanic();
    NoPanicLine([""]);
  }

  /** The whole edit: with the handler cut out of the file at its head, replacing the first
      occurrence of its text replaces the handler itself and nothing else. */
  lemma EditLandsOnHandler(isHead: string -> bool, content: string, p: nat, q: nat, end: nat)
    requires IsLocation(isHead, content, p, q) && q <= end <= |content|
    requires PanicCount(Split(content[p..end], '\n')) == 1
    ensures var handler := content[p..end]; var after := Concat(Patch(SplitAfter(handler), false));
            && handler != ""
            && Contains(content, handler)
            && ReplaceFirst(content, handler, after) == content[..p] + after + content[end..]
  {
    NothingToPatch();
    HandlerReplaced(isHead, content, p, q, end, Concat(Patch(SplitAfter(content[p..end]), false)));
  }
}
