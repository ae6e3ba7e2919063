/** The builder a document is flattened into: pending separators and nested open marks. */
module FlatText {
  import opened Arithmetic
  import opened Options

  /** An open span: `serial` tells two marks apart even when both have emitted nothing. */
  datatype Mark = Mark(serial: nat, start: Option<nat>)

  /** The builder's whole state as a value. */
  datatype Builder = Builder(text: string, breaks: nat, space: bool, marks: seq<Mark>, begun: nat)

  const FRESH := Builder("", 0, false, [], 0)

  predicate IsBlankChar(c: char) {
    c == ' ' || c == '\t' || c == '\n' || c == '\r' || c == '\U{000C}' || c == '\U{000B}'
  }

  predicate IsBlank(s: string) {
    forall k :: 0 <= k < |s| ==> IsBlankChar(s[k])
  }

  predicate IsRun(s: string) {
    |s| > 0 && forall k :: 0 <= k < |s| ==> !IsBlankChar(s[k])
  }

  function RunLength(s: string): (n: nat)
    ensures n <= |s| && (forall k :: 0 <= k < n ==> !IsBlankChar(s[k]))
    ensures |s| > 0 && !IsBlankChar(s[0]) ==> n > 0
  {
    if |s| == 0 || IsBlankChar(s[0]) then 0
    else
      assert forall k :: 1 <= k < |s| ==> s[k] == s[1..][k - 1];
      RunLength(s[1..]) + 1
  }

  /** The stretches of `s` between its white space, none empty. */
  function Runs(s: string): (runs: seq<string>)
    ensures forall k :: 0 <= k < |runs| ==> IsRun(runs[k])
    ensures |runs| == 0 <==> IsBlank(s)
    decreases |s|
  {
    if |s| == 0 then []
    else if IsBlankChar(s[0]) then
      assert forall k :: 1 <= k < |s| ==> s[k] == s[1..][k - 1];
      Runs(s[1..])
    else [s[..RunLength(s)]] + Runs(s[RunLength(s)..])
  }

  function Newlines(n: nat): (s: string)
    ensures |s| == n && forall k :: 0 <= k < n ==> s[k] == '\n'
  {
    seq(n, k => '\n')
  }

  function Separator(b: Builder): string {
    if |b.text| == 0 then "" else if b.breaks > 0 then Newlines(b.breaks) else if b.space then " " else ""
  }

  function Flush(b: Builder): Builder {
    b.(text := b.text + Separator(b), breaks := 0, space := false)
  }

  function Open(m: Mark, at: nat): Mark {
    if m.start == None then m.(start := Some(at)) else m
  }

  function OpenMarks(b: Builder): Builder {
    b.(marks := seq(|b.marks|, k requires 0 <= k < |b.marks| => Open(b.marks[k], |b.text|)))
  }

  /** Write the pending separator, open every waiting mark, write the run. */
  function Put(b: Builder, run: string): Builder {
    var begun := OpenMarks(Flush(b));
    begun.(text := begun.text + run)
  }

  function PutFrom(b: Builder, runs: seq<string>, i: nat): Builder
    requires i <= |runs|
    decreases |runs| - i
  {
    if i == |runs| then b
    else PutFrom(Put(if i > 0 then b.(space := true) else b, runs[i]), runs, i + 1)
  }

  /** Append text, every run of white space collapsed to one space. */
  function Add(b: Builder, s: string): Builder {
    if |s| == 0 then b
    else if IsBlank(s) then (if |b.text| > 0 then b.(space := true) else b)
    else
      var led := if IsBlankChar(s[0]) then b.(space := true) else b;
      var put := PutFrom(led, Runs(s), 0);
      if IsBlankChar(s[|s| - 1]) then put.(space := true) else put
  }

  /** Owe at least `count` newlines, once there is text to part from. */
  function BreakLine(b: Builder, count: nat): Builder {
    b.(breaks := if |b.text| > 0 then Max(b.breaks, count) else b.breaks, space := false)
  }

  function BeginMark(b: Builder): Builder {
    b.(marks := b.marks + [Mark(b.begun, None)], begun := b.begun + 1)
  }

  /** Close the mark with this serial, if it is the one on top. */
  function EndMark(b: Builder, serial: nat): Option<(Builder, nat, nat)> {
    if |b.marks| == 0 || b.marks[|b.marks| - 1].serial != serial then None
    else
      var start := b.marks[|b.marks| - 1].start;
      var at := if start == None then |b.text| else start.value;
      Some((b.(marks := b.marks[..|b.marks| - 1]), at, |b.text|))
  }

  /** A text node: inside a line as it is, elsewhere on a line of its own. */
  function AddText(b: Builder, s: string, insideLine: bool): Builder {
    if |s| == 0 then b
    else if insideLine then Add(b, s)
    else if IsBlank(s) then b
    else BreakLine(Add(BreakLine(b, 1), s), 1)
  }

  // --- the object the source keeps ---------------------------------------------------------------

  function Join(chunks: seq<string>): string {
    if |chunks| == 0 then "" else Join(chunks[..|chunks| - 1]) + chunks[|chunks| - 1]
  }

  lemma {:induction false} JoinAppend(chunks: seq<string>, s: string)
    ensures Join(chunks + [s]) == Join(chunks) + s
  {
    assert (chunks + [s])[..|chunks|] == chunks;
  }

  class TextBuilder {
    var chunks: seq<string>
    var length: nat
    var pendingBreak: nat
    var pendingSpace: bool
    var marks: seq<Mark>
    var begun: nat

    ghost predicate Valid()
      reads this
    {
      length == |Join(chunks)|
    }

    ghost function Value(): Builder
      reads this
    {
      Builder(Join(chunks), pendingBreak, pendingSpace, marks, begun)
    }

    constructor ()
      ensures Valid() && Value() == FRESH
    {
      chunks, length, pendingBreak, pendingSpace, marks, begun := [], 0, 0, false, [], 0;
    }

    method Emit(s: string)
      requires Valid()
      modifies this
      ensures Valid() && Value() == old(Value()).(text := old(Value()).text + s)
    {
      JoinAppend(chunks, s);
      chunks := chunks + [s];
      length := length + |s|;
    }

    method DoFlush()
      requires Valid()
      modifies this
      ensures Valid() && Value() == Flush(old(Value()))
    {
      if length == 0 {
        pendingBreak, pendingSpace := 0, false;
        return;
      }
      if pendingBreak > 0 {
        Emit(Newlines(pendingBreak));
        pendingBreak := 0;
      } else if pendingSpace {
        Emit(" ");
      }
      pendingSpace := false;
    }

    method DoOpenMarks()
      requires Valid()
      modifies this
      ensures Valid() && Value() == OpenMarks(old(Value()))
    {
      for k := 0 to |marks|
        invariant Valid() && Value() == old(Value()).(marks := marks) && |marks| == |old(marks)|
        invariant forall j :: 0 <= j < k ==> marks[j] == Open(old(marks)[j], |old(Value()).text|)
        invariant forall j :: k <= j < |marks| ==> marks[j] == old(marks)[j]
      {
        if marks[k].start == None {
          marks := marks[k := marks[k].(start := Some(length))];
        }
      }
    }

    method DoAdd(s: string)
      requires Valid()
      modifies this
      ensures Valid() && Value() == Add(old(Value()), s)
    {
      if |s| == 0 { return; }
      var runs := Runs(s);
      if |runs| == 0 {
        if length > 0 { pendingSpace := true; }
        return;
      }
      if IsBlankChar(s[0]) { pendingSpace := true; }
      ghost var led := Value();
      for i := 0 to |runs|
        invariant Valid() && PutFrom(Value(), runs, i) == PutFrom(led, runs, 0)
      {
        if i > 0 { pendingSpace := true; }
        DoFlush();
        DoOpenMarks();
        Emit(runs[i]);
      }
      if IsBlankChar(s[|s| - 1]) { pendingSpace := true; }
    }

    method DoBreakLine(count: nat)
      requires Valid()
      modifies this
      ensures Valid() && Value() == BreakLine(old(Value()), count)
    {
      if length > 0 { pendingBreak := Max(pendingBreak, count); }
      pendingSpace := false;
    }

    method DoBeginMark() returns (serial: nat)
      requires Valid()
      modifies this
      ensures Valid() && Value() == BeginMark(old(Value())) && serial == old(begun)
    {
      serial := begun;
      marks, begun := marks + [Mark(begun, None)], begun + 1;
    }

    method DoEndMark(serial: nat) returns (span: Option<(nat, nat)>)
      requires Valid()
      modifies this
      ensures Valid()
      ensures match EndMark(old(Value()), serial)
              case None => span == None && Value() == old(Value())
              case Some((after, start, end)) => span == Some((start, end)) && Value() == after
    {
      if |marks| == 0 || marks[|marks| - 1].serial != serial { return None; }
      var mark := marks[|marks| - 1];
      marks := marks[..|marks| - 1];
      span := Some((if mark.start == None then length else mark.start.value, length));
    }

    method DoAddText(s: string, insideLine: bool)
      requires Valid()
      modifies this
      ensures Valid() && Value() == AddText(old(Value()), s, insideLine)
    {
      if |s| == 0 { return; }
      if insideLine {
        DoAdd(s);
        return;
      }
      if IsBlank(s) { return; }
      DoBreakLine(1);
      DoAdd(s);
      DoBreakLine(1);
    }
  }
}
