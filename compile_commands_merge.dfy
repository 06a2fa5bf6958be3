/** `wf-compile-commands-merge OUTPUT INPUT...`: join the bodies of several
    `compile_commands.json` fragments into one JSON array.

    The file system is abstracted: `outputArgGiven` says whether argv[1]
    exists, `outputOpens` whether opening it for writing succeeds, and
    `inputs` holds one entry per argv[2..], `None` where opening that file
    fails and otherwise the file's bytes. The output file is the byte
    sequence written to it; it is `None` when the file is never opened. */
module CompileCommandsMerge {
  import opened Wrappers
  import opened Bytes

  const OpenBracket: byte := 0x5B
  const CloseBracket: byte := 0x5D
  const Newline: byte := 0x0A
  const Comma: byte := 0x2C
  const InitialBufferSize: nat := 32767

  /** What one run leaves behind: the exit status of `main` and the bytes of
      the output file, `None` when it was never opened. */
  datatype Run = Run(exitCode: int, output: Option<seq<byte>>)

  // ---------------------------------------------------------------------
  // Reference definition of the merged output

  /** The bytes the final trim removes: control characters, space and ','. */
  predicate IsTrimByte(b: byte) {
    b <= 32 || b == Comma
  }

  predicate HasNonTrimByte(s: seq<byte>) {
    exists i :: 0 <= i < |s| && !IsTrimByte(s[i])
  }

  /** `s` without its maximal run of trailing trim bytes. */
  function TrimEnd(s: seq<byte>): (r: seq<byte>)
    ensures |r| <= |s| && r == s[..|r|]
    ensures forall i :: |r| <= i < |s| ==> IsTrimByte(s[i])
    ensures r == [] || !IsTrimByte(r[|r| - 1])
    decreases |s|
  {
    if s != [] && IsTrimByte(s[|s| - 1]) then TrimEnd(s[..|s| - 1]) else s
  }

  /** The contents of the inputs that could be opened, in argument order. */
  function Readable(inputs: seq<Option<seq<byte>>>): (files: seq<seq<byte>>)
    ensures |files| <= |inputs|
  {
    if inputs == [] then []
    else
      var rest := Readable(inputs[..|inputs| - 1]);
      match inputs[|inputs| - 1]
      case None => rest
      case Some(f) => rest + [f]
  }

  /** Index of the first empty file, or `|files|` when none is empty. */
  function FirstEmpty(files: seq<seq<byte>>): (k: nat)
    ensures k <= |files|
    ensures forall j :: 0 <= j < k ==> files[j] != []
    ensures k < |files| ==> files[k] == []
  {
    if files == [] || files[0] == [] then 0 else 1 + FirstEmpty(files[1..])
  }

  /** What printing each buffer with "%s" in turn writes: no NUL byte, and
      never more than the buffers hold. */
  function Printed(files: seq<seq<byte>>): (r: seq<byte>)
    ensures Nul !in r
    ensures |r| <= |Flatten(files)|
  {
    if files == [] then [] else Printed(files[..|files| - 1]) + CString(files[|files| - 1])
  }

  /** The files' bytes one after the other. */
  function Flatten(files: seq<seq<byte>>): seq<byte> {
    if files == [] then [] else Flatten(files[..|files| - 1]) + files[|files| - 1]
  }

  /** The run of the merger:
      - no output path or an output file that cannot be opened: status 1, nothing written;
      - a readable input that is empty: status 1, after '[' and every readable
        file before it have been written;
      - otherwise status 0 and '[', every readable file but the last, the last
        one without its trailing trim bytes, then "]\n".
      When the last file holds only trim bytes (`TrimSafe` fails) the program's
      trim runs off the start of its buffer; the value given here for that
      case, an empty trimmed file, is a convention of the model. */
  function MergeSpec(outputArgGiven: bool, outputOpens: bool, inputs: seq<Option<seq<byte>>>): Run {
    if !outputArgGiven || !outputOpens then Run(1, None)
    else
      var files := Readable(inputs);
      var k := FirstEmpty(files);
      if k < |files| then Run(1, Some([OpenBracket] + Printed(files[..k])))
      else if files == [] then Run(0, Some([OpenBracket, CloseBracket, Newline]))
      else
        Run(0, Some([OpenBracket] + Printed(files[..|files| - 1])
                    + CString(TrimEnd(files[|files| - 1])) + [CloseBracket, Newline]))
  }

  /** The trim loop has no lower bound: when the run gets that far (no
      readable file is empty and there is at least one), the last readable
      file must hold a byte it stops at. */
  predicate TrimSafe(inputs: seq<Option<seq<byte>>>) {
    var files := Readable(inputs);
    FirstEmpty(files) == |files| && files != [] ==> HasNonTrimByte(files[|files| - 1])
  }

  // ---------------------------------------------------------------------
  // The program

  /** The growth loop: multiply by 3/2, rounding down, until `infsize` fits.
      The result is the first size along that trajectory that is large enough. */
  method GrowBufferSize(buffersize: nat, infsize: nat) returns (newSize: nat)
    requires buffersize >= 2
    ensures newSize >= infsize && newSize >= buffersize
    ensures FirstLargeEnough(buffersize, infsize, newSize)
  {
    newSize := buffersize;
    ghost var steps: nat := 0;
    while infsize > newSize
      invariant newSize >= buffersize
      invariant newSize == Grown(buffersize, steps)
      invariant forall j: nat :: j < steps ==> Grown(buffersize, j) < infsize
      decreases infsize - newSize
    {
      newSize := newSize * 3 / 2;
      steps := steps + 1;
    }
  }

  /** `size` is reached from `start` by growth steps, each taken while the
      size was still below `target`. */
  ghost predicate FirstLargeEnough(start: nat, target: nat, size: nat) {
    exists k: nat :: size == Grown(start, k) && forall j: nat :: j < k ==> Grown(start, j) < target
  }

  /** The size after `k` growth steps from `size`. From a size of at least 2
      every step adds at least one byte, so the growth loop ends. */
  function Grown(size: nat, k: nat): (r: nat)
    ensures r >= size
    ensures size >= 2 ==> r >= size + k
  {
    if k == 0 then size else Grown(size, k - 1) * 3 / 2
  }

  /** `realloc`: a fresh buffer of `newLength` bytes that starts with the old one's. */
  method Realloc(buffer: array<byte>, newLength: nat) returns (b: array<byte>)
    requires newLength >= buffer.Length
    ensures fresh(b) && b.Length == newLength
    ensures b[..buffer.Length] == buffer[..]
  {
    b := new byte[newLength];
    for k := 0 to buffer.Length
      invariant b[..k] == buffer[..k]
    {
      b[k] := buffer[k];
    }
  }

  /** `fread(buffer, |contents|, 1, f)` on a file holding `contents`: one item
      is read when the size is positive; a size of 0 reads nothing and returns 0. */
  method ReadItem(buffer: array<byte>, contents: seq<byte>) returns (items: nat)
    requires |contents| <= buffer.Length
    modifies buffer
    ensures items == if contents == [] then 0 else 1
    ensures buffer[..|contents|] == contents
    ensures forall j :: |contents| <= j < buffer.Length ==> buffer[j] == old(buffer[j])
  {
    if contents == [] {
      return 0;
    }
    for k := 0 to |contents|
      invariant forall j :: 0 <= j < k ==> buffer[j] == contents[j]
      invariant forall j :: k <= j < buffer.Length ==> buffer[j] == old(buffer[j])
    {
      buffer[k] := contents[k];
    }
    items := 1;
  }

  /** Loading a readable file holding `contents` in one loop step: grow the buffer when the file does not fit, NUL-terminate it at the
      file's size and read the file into it. */
  method LoadFile(buffer: array<byte>, buffersize: nat, contents: seq<byte>)
    returns (newBuffer: array<byte>, newSize: nat, items: nat)
    requires buffer.Length == buffersize + 1 && buffersize >= 2
    modifies buffer
    ensures newBuffer == buffer || fresh(newBuffer)
    ensures newBuffer.Length == newSize + 1 && newSize >= buffersize && newSize >= |contents|
    ensures items == if contents == [] then 0 else 1
    ensures newBuffer[..|contents|] == contents && newBuffer[|contents|] == Nul
    ensures FirstLargeEnough(buffersize, |contents|, newSize)
    ensures |contents| <= buffersize ==>
      newBuffer == buffer && newSize == buffersize &&
      forall j :: |contents| < j < buffer.Length ==> buffer[j] == old(buffer[j])
  {
    var infsize := |contents|;
    newBuffer, newSize := buffer, buffersize;
    if infsize > newSize {
      newSize := GrowBufferSize(newSize, infsize);
      newBuffer := Realloc(newBuffer, newSize + 1);
    } else {
      assert newSize == Grown(buffersize, 0);
      assert FirstLargeEnough(buffersize, infsize, newSize);
    }
    newBuffer[infsize] := Nul;
    items := ReadItem(newBuffer, contents);
    assert newBuffer[..] == contents + [Nul] + newBuffer[infsize + 1..];
  }

  /** The trim loop: step back from the last byte of the buffer's first
      `infsize` bytes while the byte is a trim byte. The index where it stops
      is the last byte the trimmed file keeps. */
  method FindLastKept(buffer: array<byte>, infsize: nat) returns (lastc: int)
    requires infsize <= buffer.Length
    requires HasNonTrimByte(buffer[..infsize])
    ensures 0 <= lastc < infsize
    ensures buffer[..lastc + 1] == TrimEnd(buffer[..infsize])
  {
    NonTrimKept(buffer[..infsize]);
    lastc := infsize - 1;
    while buffer[lastc] <= 32 || buffer[lastc] == Comma
      invariant 0 <= lastc < infsize
      invariant TrimEnd(buffer[..lastc + 1]) == TrimEnd(buffer[..infsize]) != []
      decreases lastc
    {
      assert buffer[..lastc + 1][..lastc] == buffer[..lastc];
      lastc := lastc - 1;
    }
  }

  /** `main`: no output path or an output file that cannot be opened ends
      the run at once; otherwise the inputs are copied out and, if one was
      read, the last of them is trimmed before the closing "]\n". */
  method Merge(outputArgGiven: bool, outputOpens: bool, inputs: seq<Option<seq<byte>>>)
    returns (exitCode: int, output: Option<seq<byte>>)
    requires outputArgGiven && outputOpens ==> TrimSafe(inputs)
    ensures Run(exitCode, output) == MergeSpec(outputArgGiven, outputOpens, inputs)
  {
    if !outputArgGiven {
      return 1, None;
    }
    if !outputOpens {
      return 1, None;
    }
    var complete, out, buffer, infsize, buffervalid := CopyInputs(inputs);
    ghost var files := Readable(inputs);
    if !complete {
      assert MergeSpec(outputArgGiven, outputOpens, inputs) == Run(1, Some(out));
      return 1, Some(out);
    }
    if buffervalid {
      var trimmed := PrintTrimmed(buffer, infsize);
      out := out + trimmed;
    } else {
      assert out + [CloseBracket, Newline] == [OpenBracket, CloseBracket, Newline];
    }
    out := out + [CloseBracket, Newline];
    return 0, Some(out);
  }

  /** The argument loop of `main`: write '[', then go through the inputs in order,
      skipping those that cannot be opened. The file read last stays in the
      buffer and is only written once a further readable file arrives. An
      empty file stops the run (`complete` false). */
  method CopyInputs(inputs: seq<Option<seq<byte>>>)
    returns (complete: bool, out: seq<byte>, buffer: array<byte>, infsize: nat, buffervalid: bool)
    ensures fresh(buffer)
    ensures var files := Readable(inputs);
      complete <==> FirstEmpty(files) == |files|
    ensures var files := Readable(inputs);
      !complete ==> out == [OpenBracket] + Printed(files[..FirstEmpty(files)])
    ensures var files := Readable(inputs);
      complete ==> (buffervalid <==> files != []) && out == [OpenBracket] + Printed(AllButLast(files))
    ensures var files := Readable(inputs);
      complete && buffervalid ==> MergeState(buffer[..], infsize, files)
  {
    out := [OpenBracket];
    var buffersize: nat := InitialBufferSize;
    infsize := 0;
    buffer := new byte[buffersize + 1];
    buffervalid := false;

    ghost var files: seq<seq<byte>> := [];
    for i := 0 to |inputs|
      invariant files == Readable(inputs[..i])
      invariant fresh(buffer)
      invariant buffer.Length == buffersize + 1 && infsize <= buffersize
      invariant buffersize >= InitialBufferSize
      invariant FirstEmpty(files) == |files|
      invariant buffervalid <==> files != []
      invariant buffervalid ==> MergeState(buffer[..], infsize, files)
      invariant out == [OpenBracket] + Printed(AllButLast(files))
    {
      ReadableStep(inputs, i);
      if inputs[i].Some? {
        var contents := inputs[i].value;
        var ok;
        ok, out, buffer, buffersize, infsize := TakeReadable(out, buffer, buffersize, infsize, buffervalid, contents, files);
        if !ok {
          EmptyFileStops(inputs, i);
          return false, out, buffer, infsize, buffervalid;
        }
        buffervalid := true;
        FirstEmptyAppend(files, contents);
        files := files + [contents];
      }
    }
    assert inputs[..|inputs|] == inputs;
    complete := true;
  }

  /** One step of the argument loop on a readable file holding `contents`: write the file held back from the previous step, then load
      this one. `ok` is false when the file is empty and `main` returns 1. */
  method TakeReadable(out: seq<byte>, buffer: array<byte>, buffersize: nat, infsize: nat,
                      buffervalid: bool, contents: seq<byte>, ghost files: seq<seq<byte>>)
    returns (ok: bool, out': seq<byte>, buffer': array<byte>, buffersize': nat, infsize': nat)
    requires buffer.Length == buffersize + 1 && infsize <= buffersize && buffersize >= InitialBufferSize
    requires buffervalid <==> files != []
    requires buffervalid ==> MergeState(buffer[..], infsize, files)
    requires out == [OpenBracket] + Printed(AllButLast(files))
    modifies buffer
    ensures buffer' == buffer || fresh(buffer')
    ensures buffer'.Length == buffersize' + 1 && infsize' <= buffersize' && buffersize' >= buffersize
    ensures FirstLargeEnough(buffersize, |contents|, buffersize')
    ensures |contents| <= buffersize ==> buffer' == buffer && buffersize' == buffersize
    ensures ok <==> contents != []
    ensures out' == [OpenBracket] + Printed(files)
    ensures ok ==> MergeState(buffer'[..], infsize', files + [contents])
  {
    out' := out;
    if buffervalid {
      BufferPrintsLast(buffer[..], infsize, files);
      FlushPrints(out', files);
      out' := out' + CString(buffer[..]);
    }
    infsize' := |contents|;
    var items;
    buffer', buffersize', items := LoadFile(buffer, buffersize, contents);
    ok := items > 0;
  }

  /** The end of a complete run: find where the trailing trim bytes of the
      buffer's first `infsize` bytes begin, end the string there with a NUL
      and print it. */
  method PrintTrimmed(buffer: array<byte>, infsize: nat) returns (printed: seq<byte>)
    requires infsize < buffer.Length
    requires HasNonTrimByte(buffer[..infsize])
    modifies buffer
    ensures printed == CString(TrimEnd(old(buffer[..infsize])))
    ensures var t := TrimEnd(old(buffer[..infsize]));
      buffer[..|t|] == t && buffer[|t|] == Nul &&
      forall j :: |t| < j < buffer.Length ==> buffer[j] == old(buffer[j])
  {
    ghost var contents := buffer[..infsize];
    var lastc := FindLastKept(buffer, infsize);
    buffer[lastc + 1] := Nul;
    assert buffer[..] == TrimEnd(contents) + [Nul] + buffer[lastc + 2..];
    CStringTerminated(TrimEnd(contents), buffer[lastc + 2..]);
    printed := CString(buffer[..]);
  }

  // ---------------------------------------------------------------------
  // Helpers for the proof of Merge

  function AllButLast(files: seq<seq<byte>>): seq<seq<byte>> {
    if files == [] then [] else files[..|files| - 1]
  }

  /** The buffer holds the last file read, NUL-terminated. */
  ghost predicate MergeState(buffer: seq<byte>, infsize: nat, files: seq<seq<byte>>) {
    files != [] && infsize < |buffer| && buffer[..infsize] == files[|files| - 1] && buffer[infsize] == Nul
  }

  lemma ReadableStep(inputs: seq<Option<seq<byte>>>, i: nat)
    requires i < |inputs|
    ensures Readable(inputs[..i + 1]) == Readable(inputs[..i]) + (if inputs[i].Some? then [inputs[i].value] else [])
  {
    assert inputs[..i + 1][..i] == inputs[..i];
  }

  /** Writing the held-back last file extends the output by it. */
  lemma FlushPrints(out: seq<byte>, files: seq<seq<byte>>)
    requires files != []
    requires out == [OpenBracket] + Printed(AllButLast(files))
    ensures out + CString(files[|files| - 1]) == [OpenBracket] + Printed(files)
  {
    PrintedLast(files);
    Regroup(out, [OpenBracket], Printed(AllButLast(files)), CString(files[|files| - 1]), Printed(files));
  }

  /** Regrouping a concatenation, stated on plain values so the solver does not unfold them. */
  lemma Regroup(out: seq<byte>, head: seq<byte>, earlier: seq<byte>, last: seq<byte>, all: seq<byte>)
    requires out == head + earlier && all == earlier + last
    ensures out + last == head + all
  {
  }

  lemma BufferPrintsLast(buffer: seq<byte>, infsize: nat, files: seq<seq<byte>>)
    requires MergeState(buffer, infsize, files)
    ensures CString(buffer) == CString(files[|files| - 1])
  {
  }

  lemma PrintedLast(files: seq<seq<byte>>)
    requires files != []
    ensures Printed(files) == Printed(AllButLast(files)) + CString(files[|files| - 1])
  {
  }

  lemma NonTrimKept(s: seq<byte>)
    requires HasNonTrimByte(s)
    ensures TrimEnd(s) != []
  {
  }

  lemma {:induction false} FirstEmptyAppend(files: seq<seq<byte>>, f: seq<byte>)
    requires FirstEmpty(files) == |files|
    ensures FirstEmpty(files + [f]) == if f == [] then |files| else |files| + 1
  {
    if files != [] {
      assert (files + [f])[1..] == files[1..] + [f];
      FirstEmptyAppend(files[1..], f);
    }
  }

  /** Filtering distributes over concatenation: the readable files keep argument order. */
  lemma {:induction false} ReadableAppend(xs: seq<Option<seq<byte>>>, ys: seq<Option<seq<byte>>>)
    ensures Readable(xs + ys) == Readable(xs) + Readable(ys)
    decreases |ys|
  {
    if ys == [] {
      assert xs + ys == xs;
    } else {
      assert (xs + ys)[..|xs + ys| - 1] == xs + ys[..|ys| - 1];
      ReadableAppend(xs, ys[..|ys| - 1]);
    }
  }

  lemma {:induction false} FirstEmptyPrefix(files: seq<seq<byte>>, more: seq<seq<byte>>)
    requires FirstEmpty(files) < |files|
    ensures FirstEmpty(files + more) == FirstEmpty(files)
  {
    if files[0] != [] {
      assert (files + more)[1..] == files[1..] + more;
      FirstEmptyPrefix(files[1..], more);
    }
  }

  /** Reaching an empty readable input at argument `i` is the case the
      reference definition reports as a failure after the earlier files. */
  lemma EmptyFileStops(inputs: seq<Option<seq<byte>>>, i: nat)
    requires i < |inputs| && inputs[i] == Some([])
    requires FirstEmpty(Readable(inputs[..i])) == |Readable(inputs[..i])|
    ensures var files := Readable(inputs);
      FirstEmpty(files) == |Readable(inputs[..i])| < |files| &&
      files[..FirstEmpty(files)] == Readable(inputs[..i])
  {
    var before := Readable(inputs[..i]);
    assert inputs[..i + 1][..i] == inputs[..i];
    assert Readable(inputs[..i + 1]) == before + [[]];
    FirstEmptyAppend(before, []);
    assert inputs == inputs[..i + 1] + inputs[i + 1..];
    ReadableAppend(inputs[..i + 1], inputs[i + 1..]);
    FirstEmptyPrefix(before + [[]], Readable(inputs[i + 1..]));
  }

  // ---------------------------------------------------------------------
  // Properties of the merged output

  lemma {:induction false} ReadableMembers(inputs: seq<Option<seq<byte>>>, f: seq<byte>)
    ensures f in Readable(inputs) <==> Some(f) in inputs
    decreases |inputs|
  {
    if inputs != [] {
      var init := inputs[..|inputs| - 1];
      assert inputs == init + [inputs[|inputs| - 1]];
      ReadableMembers(init, f);
    }
  }

  lemma FirstEmptyNone(files: seq<seq<byte>>)
    ensures FirstEmpty(files) == |files| <==> [] !in files
  {
  }

  /** The shape of every run: an output file exists exactly when argv[1] is
      given and opens; what is written starts with '['; the status is 0
      exactly when, in addition, no readable input is empty, and then the
      output ends with "]\n". */
  lemma MergeOutcome(outputArgGiven: bool, outputOpens: bool, inputs: seq<Option<seq<byte>>>)
    ensures var run := MergeSpec(outputArgGiven, outputOpens, inputs);
      (run.output.Some? <==> outputArgGiven && outputOpens) &&
      (run.output.Some? ==> |run.output.value| >= 1 && run.output.value[0] == OpenBracket) &&
      (run.exitCode == 0 || run.exitCode == 1) &&
      (run.exitCode == 0 <==> outputArgGiven && outputOpens && Some([]) !in inputs) &&
      (run.exitCode == 0 ==>
         (|run.output.value| >= 3 && run.output.value[|run.output.value| - 2..] == [CloseBracket, Newline]))
  {
    ReadableMembers(inputs, []);
    FirstEmptyNone(Readable(inputs));
  }

  /** With no input that can be opened, the output is exactly "[]\n". */
  lemma MergeNothingReadable(inputs: seq<Option<seq<byte>>>)
    requires forall j :: 0 <= j < |inputs| ==> inputs[j].None?
    ensures MergeSpec(true, true, inputs) == Run(0, Some([OpenBracket, CloseBracket, Newline]))
  {
    if Readable(inputs) != [] {
      var f := Readable(inputs)[0];
      ReadableMembers(inputs, f);
      assert false;
    }
  }

  /** An input that cannot be opened adds no readable file. */
  lemma {:induction false} ReadableSkipsNone(xs: seq<Option<seq<byte>>>, ys: seq<Option<seq<byte>>>)
    ensures Readable(xs + [None] + ys) == Readable(xs + ys)
  {
    ReadableAppend(xs + [None], ys);
    ReadableAppend(xs, [None]);
    ReadableAppend(xs, ys);
    assert Readable([None]) == [];
  }

  /** An input that cannot be opened contributes nothing, wherever it stands. */
  lemma MergeSkipsUnreadable(outputArgGiven: bool, outputOpens: bool, xs: seq<Option<seq<byte>>>, ys: seq<Option<seq<byte>>>)
    ensures MergeSpec(outputArgGiven, outputOpens, xs + [None] + ys) == MergeSpec(outputArgGiven, outputOpens, xs + ys)
    ensures TrimSafe(xs + [None] + ys) <==> TrimSafe(xs + ys)
  {
    ReadableSkipsNone(xs, ys);
  }

  lemma {:induction false} PrintedNoNul(files: seq<seq<byte>>)
    requires forall j :: 0 <= j < |files| ==> Nul !in files[j]
    ensures Printed(files) == Flatten(files)
    decreases |files|
  {
    if files != [] {
      PrintedNoNul(files[..|files| - 1]);
      CStringNoNul(files[|files| - 1]);
    }
  }

  /** For inputs without NUL bytes, a successful run writes '[', every
      readable file but the last byte for byte and in argument order, the
      last one up to its trailing trim bytes, and "]\n": the concatenation of
      all readable files with only a trailing run of whitespace, control
      bytes and commas dropped. */
  lemma MergeVerbatim(inputs: seq<Option<seq<byte>>>)
    requires forall j :: 0 <= j < |inputs| && inputs[j].Some? ==> Nul !in inputs[j].value
    requires Some([]) !in inputs
    ensures var files := Readable(inputs);
      files != [] ==>
        var body := Flatten(AllButLast(files)) + TrimEnd(files[|files| - 1]);
        MergeSpec(true, true, inputs) == Run(0, Some([OpenBracket] + body + [CloseBracket, Newline])) &&
        body == Flatten(files)[..|body|] &&
        forall i :: |body| <= i < |Flatten(files)| ==> IsTrimByte(Flatten(files)[i])
  {
    var files := Readable(inputs);
    if files != [] {
      var last := files[|files| - 1];
      MergeSpecCompleted(inputs);
      ReadableNoNul(inputs);
      assert forall j :: 0 <= j < |AllButLast(files)| ==> AllButLast(files)[j] == files[j];
      PrintedNoNul(AllButLast(files));
      assert Nul !in last;
      assert Nul !in TrimEnd(last);
      CStringNoNul(TrimEnd(last));
      TrimmedBody(files);
      Substitute([OpenBracket], Printed(AllButLast(files)), CString(TrimEnd(last)),
                 Flatten(AllButLast(files)), TrimEnd(last), [CloseBracket, Newline]);
    }
  }

  /** Replacing two middle parts of a concatenation by equal ones, on plain values. */
  lemma Substitute(head: seq<byte>, a: seq<byte>, b: seq<byte>, a': seq<byte>, b': seq<byte>, tail: seq<byte>)
    requires a == a' && b == b'
    ensures head + a + b + tail == head + (a' + b') + tail
  {
  }

  lemma {:induction false} ReadableNoNul(inputs: seq<Option<seq<byte>>>)
    requires forall j :: 0 <= j < |inputs| && inputs[j].Some? ==> Nul !in inputs[j].value
    ensures forall j :: 0 <= j < |Readable(inputs)| ==> Nul !in Readable(inputs)[j]
    decreases |inputs|
  {
    if inputs != [] {
      ReadableNoNul(inputs[..|inputs| - 1]);
    }
  }

  lemma MergeSpecCompleted(inputs: seq<Option<seq<byte>>>)
    requires Some([]) !in inputs
    requires Readable(inputs) != []
    ensures var files := Readable(inputs);
      MergeSpec(true, true, inputs) == Run(0, Some([OpenBracket] + Printed(AllButLast(files))
                                                     + CString(TrimEnd(files[|files| - 1])) + [CloseBracket, Newline]))
  {
    ReadableMembers(inputs, []);
    FirstEmptyNone(Readable(inputs));
  }

  lemma TrimmedBody(files: seq<seq<byte>>)
    requires files != []
    ensures var body := Flatten(AllButLast(files)) + TrimEnd(files[|files| - 1]);
      body == Flatten(files)[..|body|] &&
      forall i :: |body| <= i < |Flatten(files)| ==> IsTrimByte(Flatten(files)[i])
  {
    assert Flatten(files) == Flatten(AllButLast(files)) + files[|files| - 1];
  }

  /** For inputs without NUL bytes, an empty readable file ends the run with
      status 1 after '[' and the readable files before it. */
  lemma MergeEmptyFileFails(inputs: seq<Option<seq<byte>>>)
    requires forall j :: 0 <= j < |inputs| && inputs[j].Some? ==> Nul !in inputs[j].value
    requires Some([]) in inputs
    ensures var files := Readable(inputs);
      var k := FirstEmpty(files);
      k < |files| && MergeSpec(true, true, inputs) == Run(1, Some([OpenBracket] + Flatten(files[..k])))
  {
    var files := Readable(inputs);
    ReadableMembers(inputs, []);
    FirstEmptyNone(files);
    var k := FirstEmpty(files);
    forall j | 0 <= j < k
      ensures Nul !in files[..k][j]
    {
      ReadableMembers(inputs, files[j]);
      var m :| 0 <= m < |inputs| && inputs[m] == Some(files[j]);
    }
    PrintedNoNul(files[..k]);
  }

  /** A fragment that ends in "},\n" contributes up to its closing brace. */
  lemma TrimEndExample()
    ensures TrimEnd([0x7D, Comma, Newline]) == [0x7D]
  {
    var s: seq<byte> := [0x7D, Comma, Newline];
    assert s[..2] == [0x7D, Comma];
    assert s[..2][..1] == [0x7D];
    assert TrimEnd(s) == TrimEnd(s[..2]);
    assert TrimEnd(s[..2]) == TrimEnd(s[..2][..1]);
    assert TrimEnd([0x7D]) == [0x7D];
  }
}
