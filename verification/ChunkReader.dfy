/** The streaming reader: one bounded buffer over a list of files, handing out one text at a time. */
module ChunkReader {
  import opened Common
  import opened AmpSplit

  /** An opened file: its bytes, the file position, and whether it is still open. */
  datatype Stream = NoStream | Stream(content: seq<byte>, pos: nat, open: bool)

  /** A name in the list either opens on some content or cannot be opened. */
  type Files = seq<Option<seq<byte>>>

  predicate Readable(files: Files) {
    forall f :: f in files && f.Some? ==> |f.value| > 0 && NulFree(f.value)
  }

  /** Buffer size once a stretch of len bytes and what follows it has been made to fit. */
  function Fit(cap: nat, len: nat): (r: nat)
    requires cap >= 4
    ensures r >= cap && r - 3 > len
    decreases len + 4 - cap
  {
    if cap - 3 > len then cap else Fit(2 * cap, len)
  }

  /** The texts of raw from the text start p, then those of the remaining files. */
  function Chain(raw: seq<byte>, p: nat, cap: nat, rest: Files): seq<seq<byte>>
    requires p < |raw| && cap >= 4
    decreases |rest|, |raw| - p, 1
  {
    var c := Terminated(raw);
    var q := NextAmp(c, p + 1);
    if q < |raw| then [c[p..q]] + Chain(raw, q, Fit(cap, q - p), rest)
    else [c[p..]] + Emitted(rest, Fit(cap, |raw| - p))
  }

  /** What a run over files emits with a buffer of cap bytes: a file whose first text start is not in
      its first bufferful ends the whole run. */
  function Emitted(files: Files, cap: nat): seq<seq<byte>>
    requires cap >= 4
    decreases |files|, 0, 0
  {
    if files == [] then []
    else match files[0]
      case None => Emitted(files[1..], cap)
      case Some(raw) =>
        var p := NextAmp(Terminated(raw), 0);
        if p < |raw| && p < cap - 3 then Chain(raw, p, cap, files[1..]) else []
  }

  /** Index of the first name that opens, or the number of names. */
  function FirstOpen(files: Files): (k: nat)
    ensures k <= |files|
    ensures k < |files| ==> files[k].Some?
    ensures forall i :: 0 <= i < k ==> files[i].None?
  {
    if files == [] || files[0].Some? then 0 else 1 + FirstOpen(files[1..])
  }

  lemma {:induction false} EmittedSkips(files: Files, cap: nat)
    requires cap >= 4
    ensures Emitted(files, cap) == Emitted(files[FirstOpen(files)..], cap)
  {
    if files == [] || files[0].Some? {
      assert files[0..] == files;
    } else {
      EmittedSkips(files[1..], cap);
      assert files[1..][FirstOpen(files[1..])..] == files[FirstOpen(files)..];
    }
  }

  lemma {:induction false} FirstOpenFrom(files: Files, start: nat, k: nat)
    requires start <= k <= |files|
    requires forall i :: start <= i < k ==> files[i].None?
    requires k < |files| ==> files[k].Some?
    ensures FirstOpen(files[start..]) == k - start
    decreases k - start
  {
    if start < k {
      FirstOpenFrom(files, start + 1, k);
      assert files[start..][1..] == files[start + 1..];
    }
  }

  /** What the buffer covers: len bytes of the source from base on, in a buffer of cap bytes; done once
      the end of the file has been read. */
  datatype Span = Span(source: Stream, base: nat, len: nat, cap: nat, done: bool) {

    /** The source as it is to be split. */
    function File(): seq<byte>
      requires source.Stream?
    {
      Terminated(source.content)
    }

    /** The span starts at a text start (or the beginning of the file) and ends at the file position, or
        at the end of the terminated file once that is read. */
    predicate Ok() {
      && source.Stream? && |source.content| > 0 && NulFree(source.content)
      && source.open == !done
      && cap >= 4 && len + 2 <= cap
      && base < |source.content|
      && (base == 0 || AmpAt(File(), base))
      && base + len <= |File()|
      && (if done then base + len == |File()| && source.pos == |source.content| < base + cap - 3
          else base + len == source.pos <= |source.content| && len == cap - 3)
    }

    /** The bytes covered, then two NULs. */
    function Shown(): (w: seq<byte>)
      requires Ok()
      ensures |w| == len + 2
    {
      File()[base..base + len] + [NUL, NUL]
    }

    /** A text starts at offset amp; the next starts at offset end, or this is the last of the file. */
    predicate Taken(amp: Option<nat>, end: Option<nat>)
      requires Ok()
    {
      && amp.Some? && AmpAt(File(), base + amp.value)
      && NextAmp(File(), base + amp.value + 1) == (if end.Some? then base + end.value else |File()|)
      && (end.None? ==> done)
      && (end.Some? ==> end.value < len && base + end.value < |source.content|)
    }

    /** The texts to come when one starts at offset amp, or none does. */
    function Pending(amp: Option<nat>, rest: Files): seq<seq<byte>>
      requires Ok()
      requires amp.Some? ==> base + amp.value < |source.content|
    {
      if amp.None? then [] else Chain(source.content, base + amp.value, cap, rest)
    }
  }

  class Reader {
    const files: Files
    var buf: array<byte>
    var inputLen: nat
    var source: Stream
    var todo: Option<nat>      // index of the next name, None for the C null pointer
    var moreSources: bool
    var thisOneIsDone: bool
    var ampPtr: Option<nat>    // offsets in buf, None for null
    var endPtr: Option<nat>
    var atfLen: nat
    var save0: byte
    var save1: byte
    ghost var base: nat        // file offset of buf[0]

    /** The names not tried yet, once the first file is open. */
    ghost function Rest(): Files
      reads this
      requires todo.Some? ==> todo.value <= |files|
    {
      if moreSources && todo.Some? then files[todo.value..] else []
    }

    ghost predicate ListOk()
      reads this
    {
      && Readable(files)
      && (todo.Some? ==> todo.value <= |files|)
      && (moreSources ==> todo.Some? && todo.value < |files|)
    }

    /** What the buffer covers now. */
    ghost function Covered(): Span
      reads this
    {
      Span(source, base, inputLen, buf.Length, thisOneIsDone)
    }

    /** The buffer shows its span: no end of text is marked in it. */
    ghost predicate Whole()
      reads this, buf
    {
      Covered().Ok() && buf[..inputLen + 2] == Covered().Shown()
    }

    /** The buffer shows its span once save0 and save1 are put back at the marked end of the text. */
    ghost predicate Marked()
      reads this, buf
    {
      && Covered().Ok() && endPtr.Some? && endPtr.value < inputLen
      && buf[endPtr.value] == buf[endPtr.value + 1] == NUL
      && buf[..inputLen + 2][endPtr.value := save0][endPtr.value + 1 := save1] == Covered().Shown()
    }

    /** No text taken yet from this file. */
    ghost predicate Fresh()
      reads this
    {
      ampPtr.None? && endPtr.None? && base == 0
    }

    ghost predicate Valid()
      reads this, buf
    {
      && ListOk()
      && (if endPtr.Some? then Marked() else Whole())
      && (Fresh() || Covered().Taken(ampPtr, endPtr))
    }

    /** The texts still to come. */
    ghost function Future(): seq<seq<byte>>
      reads this, buf
      requires Valid()
    {
      if Fresh() then Emitted([Some(source.content)] + Rest(), buf.Length)
      else if endPtr.Some? then Covered().Pending(endPtr, Rest())
      else Emitted(Rest(), buf.Length)
    }

    constructor (files: Files, bufLen: nat)
      requires Readable(files) && bufLen >= 4
      ensures this.files == files && ListOk() && fresh(buf) && buf.Length == bufLen
      ensures todo.None? && !thisOneIsDone && ampPtr.None? && endPtr.None?
    {
      this.files := files;
      buf := new byte[bufLen](_ => NUL);
      inputLen, atfLen, save0, save1, base := 0, 0, NUL, NUL, 0;
      source, todo, moreSources, thisOneIsDone := NoStream, None, false, false;
      ampPtr, endPtr := None, None;
    }

    /** axr_set_input for a list of names: open the next one that can be opened. */
    method SetInput()
      requires ListOk() && (todo.None? || moreSources)
      modifies this`source, this`todo, this`moreSources, this`base
      ensures ListOk()
      ensures var names := if old(todo).Some? then files[old(todo.value)..] else files;
              var k := FirstOpen(names);
              if k < |names| then
                source == Stream(names[k].value, 0, true) && base == 0 && Rest() == names[k + 1..]
              else source == NoStream && !moreSources
    {
      if todo.None? {
        todo := Some(0);
        if |files| == 0 {
          source, moreSources, todo := NoStream, false, None;
          return;
        }
      }
      ghost var start := todo.value;
      ghost var at := start;
      moreSources := true;
      while moreSources
        invariant start <= at <= |files| && (forall i :: start <= i < at ==> files[i].None?)
        invariant moreSources ==> todo == Some(at) && at < |files|
        invariant !moreSources ==> todo.None? && at == |files| && source == NoStream
        decreases |files| - at
      {
        source := if files[todo.value].None? then NoStream else Stream(files[todo.value].value, 0, true);
        base := 0;
        todo := Some(todo.value + 1);
        moreSources := todo.value < |files|;
        if !moreSources { todo := None; }
        if source.Stream? { break; }
        at := at + 1;
      }
      FirstOpenFrom(files, start, at);
    }

    /** fread of up to n bytes; eof says that the read was short. */
    method Fread(n: nat) returns (nread: nat, eof: bool)
      requires source.Stream? && source.open && source.pos <= |source.content| && n <= buf.Length
      modifies this`source, buf
      ensures source.Stream?
      ensures nread == if eof then |source.content| - old(source.pos) else n
      ensures eof <==> |source.content| - old(source.pos) < n
      ensures source == old(source).(pos := old(source.pos) + nread)
      ensures buf[..nread] == source.content[old(source.pos)..source.pos]
    {
      var pos, left := source.pos, |source.content| - source.pos;
      eof := left < n;
      nread := if eof then left else n;
      forall i | 0 <= i < nread { buf[i] := source.content[pos + i]; }
      source := source.(pos := pos + nread);
    }

    /** axr_read_input: fill the buffer from the file position; a short read is the end of the file,
        which is closed and given its final newline. */
    method ReadInput()
      requires source.Stream? && source.open && source.pos < |source.content| && NulFree(source.content)
      requires source.pos == 0 || AmpAt(Covered().File(), source.pos)
      requires buf.Length >= 4
      modifies this`source, this`thisOneIsDone, this`inputLen, this`base, buf
      ensures Whole() && source.content == old(source.content) && base == old(source.pos)
    {
      base := source.pos;
      var nread := Fill();
      TerminateAt(nread);
      inputLen := nread;
    }

    /** Read what fits; at the end of the file, close it and see that a newline ends it. */
    method Fill() returns (nread: nat)
      requires source.Stream? && source.open && source.pos < |source.content|
      requires buf.Length >= 4
      modifies this`source, this`thisOneIsDone, buf
      ensures source.Stream? && source.content == old(source.content) && source.open == !thisOneIsDone
      ensures nread + 2 <= buf.Length
      ensures var pos, c := old(source.pos), Terminated(source.content);
              && pos + nread <= |c| && buf[..nread] == c[pos..pos + nread]
              && if thisOneIsDone then pos + nread == |c| && source.pos == |source.content| < pos + buf.Length - 3
                 else pos + nread == source.pos <= |source.content| && nread == buf.Length - 3
    {
      hide Terminated;
      ghost var pos := source.pos;
      nread, thisOneIsDone := Fread(buf.Length - 3);
      if thisOneIsDone {
        source := source.(open := false);
        nread := EndLine(nread);
        TerminatedTail(source.content, pos, buf[..nread]);
      } else {
        TerminatedFront(source.content, pos, buf[..nread]);
      }
    }

    /** The first axr_set_input and axr_get_input of a run. */
    method Start() returns (ok: bool)
      requires ListOk() && todo.None? && !thisOneIsDone && ampPtr.None? && endPtr.None? && buf.Length >= 4
      modifies this, buf
      ensures buf == old(buf)
      ensures if ok then Valid() && Future() == Emitted(files, buf.Length) else Emitted(files, buf.Length) == []
    {
      hide Chain, Emitted, NextAmp, AmpAt, Terminated;
      SetInput();
      ok := GetInput();
      if ok {
        NextOpen(files, source.content, Rest(), buf.Length);
      } else {
        NoneOpen(files, buf.Length);
      }
    }

    /** A newline is appended to the n bytes read unless they end in one. */
    method EndLine(n: nat) returns (m: nat)
      requires 0 < n < buf.Length
      modifies buf
      ensures n <= m <= n + 1 && buf[..m] == Terminated(old(buf[..n]))
    {
      m := n;
      if buf[n - 1] != NL {
        buf[n] := NL;
        m := n + 1;
        assert buf[..n] == old(buf[..n]);
      }
    }

    /** input_buf[n] = input_buf[n+1] = '\0'. */
    method TerminateAt(n: nat)
      requires n + 2 <= buf.Length
      modifies buf
      ensures buf[..n + 2] == old(buf[..n]) + [NUL, NUL]
    {
      buf[n], buf[n + 1] := NUL, NUL;
      assert buf[..n] == old(buf[..n]);
    }

    /** axr_get_input: read on in this file, or open the next one. */
    method GetInput() returns (ok: bool)
      requires ListOk() && buf.Length >= 4
      requires source.Stream? && !thisOneIsDone ==>
                 && source.open && source.pos < |source.content| && NulFree(source.content)
                 && (source.pos == 0 || AmpAt(Covered().File(), source.pos))
      modifies this`source, this`todo, this`moreSources, this`thisOneIsDone, this`inputLen, this`base, buf
      ensures ListOk()
      ensures !old(thisOneIsDone) ==> ok == old(source).Stream? && Rest() == old(Rest())
      ensures ok ==> source.Stream?
      ensures !old(thisOneIsDone) && ok ==> source.content == old(source.content) && base == old(source.pos)
      ensures old(thisOneIsDone) ==> ok == (FirstOpen(old(Rest())) < |old(Rest())|)
      ensures old(thisOneIsDone) && ok ==>
                var k := FirstOpen(old(Rest()));
                Some(source.content) == old(Rest())[k] && Rest() == old(Rest())[k + 1..] && base == 0
      ensures ok ==> Whole()
    {
      if thisOneIsDone {
        if moreSources {
          SetInput();
        } else {
          source := NoStream;
        }
      }
      if source.NoStream? { return false; }
      assert |source.content| > 0 && NulFree(source.content);
      ReadInput();
      return inputLen != 0;
    }

    /** axr_amp_line: the first text start at or after p, by scanning for `&` and then back to the start
        of its line. */
    method AmpLine(p: nat) returns (r: Option<nat>)
      requires p <= inputLen < buf.Length && NulFree(buf[..inputLen]) && buf[inputLen] == NUL
      ensures var n := NextAmp(buf[..inputLen], p); r == if n < inputLen then Some(n) else None
    {
      ghost var s := buf[..inputLen];
      assert forall i :: 0 <= i < inputLen ==> buf[i] == s[i] != NUL;
      var q := p;
      while true
        invariant p <= q <= inputLen
        invariant forall i :: p <= i < q ==> !AmpAt(s, i)
        decreases inputLen - q
      {
        ghost var q0 := q;
        while buf[q] != AMP && buf[q] != NUL
          invariant q0 <= q <= inputLen
          decreases inputLen - q
          invariant forall i :: p <= i < q ==> !AmpAt(s, i)
        {
          assert q < inputLen && buf[q] == s[q];
          q := q + 1;
        }
        if buf[q] == NUL {
          NextAmpIs(s, p, q);
          return None;
        }
        var b := q;
        while b > 0 && buf[b - 1] != NL
          invariant 0 <= b <= q
          invariant forall k :: b <= k < q ==> s[k] != NL
        {
          b := b - 1;
        }
        assert LineStart(s, b);
        assert forall k :: b < k <= q ==> !LineStart(s, k);
        if || q == b
           || (q - b == 2 && buf[b] == 0xfe && buf[b + 1] == 0xff)
           || (q - b == 3 && buf[b] == 0xef && buf[b + 1] == 0xbb && buf[b + 2] == 0xbf) {
          assert AmpAt(s, q);
          NextAmpIs(s, p, q);
          return Some(q);
        }
        assert !AmpAt(s, q);
        q := q + 1;
      }
    }

    /** strlen from offset p. */
    method StrLen(p: nat) returns (n: nat)
      requires p <= inputLen < buf.Length && NulFree(buf[..inputLen]) && buf[inputLen] == NUL
      ensures n == inputLen - p
    {
      assert forall i :: 0 <= i < inputLen ==> buf[i] == buf[..inputLen][i] != NUL;
      n := 0;
      while buf[p + n] != NUL
        invariant p + n <= inputLen
        decreases inputLen - n
      {
        n := n + 1;
      }
    }

    /** axr_backup_input: move the file position back by n bytes. */
    method BackupInput(n: nat)
      requires source.Stream? && n <= source.pos
      modifies this`source
      ensures source == old(source).(pos := old(source.pos) - n)
    {
      source := source.(pos := source.pos - n);
    }

    /** axr_grow_input: double the buffer and read again. */
    method GrowInput()
      requires source.Stream? && source.open && source.pos < |source.content| && NulFree(source.content)
      requires source.pos == 0 || AmpAt(Covered().File(), source.pos)
      requires buf.Length >= 4
      modifies this`source, this`thisOneIsDone, this`inputLen, this`base, this`buf, this`ampPtr, this`endPtr
      ensures fresh(buf) && buf.Length == 2 * old(buf.Length)
      ensures ampPtr.None? && endPtr.None? && Whole()
      ensures source.content == old(source.content) && base == old(source.pos)
    {
      var bigger := new byte[2 * buf.Length](
        i requires 0 <= i reads this, buf => if i < buf.Length then buf[i] else NUL);
      buf := bigger;
      ampPtr, endPtr := None, None;
      ReadInput();
    }

    /** A whole buffer is C text: a stretch of the file, then NUL. */
    lemma {:induction false} WindowText()
      requires Whole()
      ensures buf[..inputLen] == Covered().File()[base..base + inputLen]
      ensures NulFree(buf[..inputLen]) && buf[inputLen] == buf[inputLen + 1] == NUL
    {
      ShownWindow(buf[..inputLen + 2], Covered().File(), base, base + inputLen);
      assert buf[..inputLen] == buf[..inputLen + 2][..inputLen];
    }

    lemma {:induction false} WindowSlice(a: nat, b: nat)
      requires Whole() && a <= b <= inputLen
      ensures buf[a..b] == Covered().File()[base + a..base + b]
    {
      WindowText();
      SliceOfSlice(buf[..], 0, inputLen, a, b);
      SliceOfSlice(Covered().File(), base, base + inputLen, a, b);
    }

    /** Putting the saved bytes back makes the buffer whole again. */
    method RestoreEnd()
      requires Marked()
      modifies this`ampPtr, this`endPtr, this`save0, this`save1, buf
      ensures Whole() && endPtr.None? && ampPtr == old(endPtr)
    {
      var e := endPtr.value;
      ampPtr := Some(e);
      buf[e], buf[e + 1] := save0, save1;
      save0, save1 := NUL, NUL;
      assert buf[..inputLen + 2] == old(buf[..inputLen + 2])[e := old(save0)][e + 1 := old(save1)];
      endPtr := None;
    }

    /** Marking the end of the text at ampPtr with two NULs, keeping what they overwrite. */
    method MarkEnd(e: nat)
      requires Whole() && ampPtr.Some? && ampPtr.value < e < inputLen
      modifies this`endPtr, this`save0, this`save1, this`atfLen, buf
      ensures Marked() && endPtr == Some(e) && atfLen == e - ampPtr.value
      ensures Text() == old(buf[ampPtr.value..e])
    {
      hide Chain, Emitted, NextAmp, AmpAt, Terminated;
      ghost var was := buf[..inputLen + 2];
      endPtr := Some(e);
      save0, save1 := buf[e], buf[e + 1];
      buf[e], buf[e + 1] := NUL, NUL;
      atfLen := e - ampPtr.value;
      assert buf[..inputLen + 2] == was[e := NUL][e + 1 := NUL];
      PutBack(was, e);
    }

    /** The text handed out. */
    ghost function Text(): seq<byte>
      reads this, buf
      requires ampPtr.Some? && ampPtr.value + atfLen <= buf.Length
    {
      buf[ampPtr.value..ampPtr.value + atfLen]
    }

    /** The text at ampPtr is found but its end is not looked for yet. */
    ghost predicate Found()
      reads this, buf
    {
      && ListOk() && Whole() && endPtr.None?
      && (ampPtr.Some? ==>
            && ampPtr.value < inputLen && base + ampPtr.value < |source.content|
            && AmpAt(Covered().File(), base + ampPtr.value))
    }

    /** The first text start in the buffer. */
    method FindFirst()
      requires ListOk() && Whole() && endPtr.None?
      modifies this`ampPtr
      ensures Found()
      ensures base == 0 ==> Covered().Pending(ampPtr, Rest()) == Emitted([Some(source.content)] + Rest(), buf.Length)
      ensures AmpAt(Covered().File(), base) ==> ampPtr == Some(0)
    {
      hide Chain, Emitted, NextAmp, AmpAt;
      WindowText();
      var first := AmpLine(0);
      FrontOf(Covered(), first, Rest());
      ampPtr := first;
    }

    /** axr_get_atf when the last text of a file has been handed out: open the next file. */
    method NextFile() returns (ok: bool)
      requires ListOk() && Whole() && endPtr.None? && thisOneIsDone
      modifies this, buf
      ensures buf == old(buf)
      ensures var want := Emitted(old(Rest()), buf.Length);
              if ok then Found() && Covered().Pending(ampPtr, Rest()) == want else want == []
    {
      hide Chain, Emitted, NextAmp, AmpAt, Terminated;
      ghost var rest, cap := Rest(), buf.Length;
      ok := GetInput();
      if ok {
        ampPtr := None;
        NextOpen(rest, source.content, Rest(), cap);
        FindFirst();
      } else {
        NoneOpen(rest, cap);
      }
    }

    /** axr_get_atf up to amp_cont: move on to the text after the last one handed out. */
    method AmpInit() returns (ok: bool)
      requires Valid()
      modifies this, buf
      ensures buf == old(buf)
      ensures if ok then Found() && Covered().Pending(ampPtr, Rest()) == old(Future()) else old(Future()) == []
    {
      hide Chain, Emitted, NextAmp, AmpAt, Terminated;
      ok := true;
      if ampPtr.None? {
        FindFirst();
      } else if endPtr.Some? {
        RestoreEnd();
      } else if thisOneIsDone {
        ok := NextFile();
      } else {
        assert false;  // the source's "internal error" cannot happen
        ok := false;
      }
    }

    /** A text has been handed out: it is terminated for the scanner by two NULs, and with it and the
        texts still to come nothing is lost of what was to come. */
    ghost predicate Handed(atf: nat, want: seq<seq<byte>>)
      reads this, buf
    {
      && Valid() && ampPtr == Some(atf) && atf + atfLen + 2 <= buf.Length
      && buf[atf + atfLen] == buf[atf + atfLen + 1] == NUL
      && want == [Text()] + Future()
    }

    /** The next text start after the one at ampPtr, if the buffer shows it. */
    method FindEnd() returns (end: Option<nat>)
      requires Found() && ampPtr.Some?
      ensures var q := NextAmp(Covered().File(), base + ampPtr.value + 1);
              if end.Some? then ampPtr.value < end.value < inputLen && q == base + end.value
              else q >= base + inputLen && (thisOneIsDone ==> q == |Covered().File()|)
    {
      hide Chain, Emitted, NextAmp, AmpAt, Terminated;
      WindowText();
      EndOf(Covered(), ampPtr.value);
      end := AmpLine(ampPtr.value + 1);
    }

    /** Hand out the text that ends where the next one starts. */
    method TakeTo(e: nat)
      requires Found() && ampPtr.Some? && ampPtr.value < e < inputLen
      requires NextAmp(Covered().File(), base + ampPtr.value + 1) == base + e
      modifies this`endPtr, this`save0, this`save1, this`atfLen, buf
      ensures Handed(ampPtr.value, old(Covered().Pending(ampPtr, Rest())))
    {
      hide Chain, Emitted, NextAmp, AmpAt, Terminated;
      ghost var sp := Covered();
      WindowSlice(ampPtr.value, e);
      StepEnd(sp, ampPtr.value, e, Rest());
      MarkEnd(e);
    }

    /** Hand out the last text of the file. */
    method TakeLast()
      requires Found() && ampPtr.Some? && ampPtr.value < inputLen && thisOneIsDone
      requires NextAmp(Covered().File(), base + ampPtr.value + 1) == |Covered().File()|
      modifies this`atfLen, buf
      ensures Handed(ampPtr.value, old(Covered().Pending(ampPtr, Rest())))
    {
      hide Chain, Emitted, NextAmp, AmpAt, Terminated;
      ghost var sp := Covered();
      WindowText();
      WindowSlice(ampPtr.value, inputLen);
      StepLast(sp, ampPtr.value, Rest());
      assert sp.File()[base + ampPtr.value..] == sp.File()[base + ampPtr.value..base + inputLen];
      buf[inputLen + 1] := NUL;
      assert buf[..inputLen + 2] == sp.Shown();
      atfLen := StrLen(ampPtr.value);
    }

    /** The buffer could never hold the text at its front: back to the text start, with twice the room. */
    method Regrow()
      requires Found() && ampPtr == Some(0) && !thisOneIsDone
      requires NextAmp(Covered().File(), base + 1) >= base + inputLen
      modifies this, buf
      ensures Found() && fresh(buf) && buf.Length == 2 * old(buf.Length)
      ensures source.Stream? && source.content == old(source.content) && base == old(base)
      ensures Covered().Pending(ampPtr, Rest()) == old(Covered().Pending(ampPtr, Rest()))
    {
      hide Chain, Emitted, NextAmp, AmpAt, Terminated;
      StepGrow(Covered(), Rest());
      BackupInput(inputLen);
      GrowInput();
      FindFirst();
    }

    /** The text at ampPtr may be cut off: back to its start, and fill the buffer from there. */
    method Reread()
      requires Found() && ampPtr.Some? && ampPtr.value > 0 && !thisOneIsDone
      modifies this, buf
      ensures Found() && buf == old(buf)
      ensures source.Stream? && source.content == old(source.content) && base > old(base)
      ensures Covered().Pending(ampPtr, Rest()) == old(Covered().Pending(ampPtr, Rest()))
    {
      hide Chain, Emitted, NextAmp, AmpAt, Terminated;
      WindowText();
      var pending := StrLen(ampPtr.value);
      BackupInput(pending);
      var ok := GetInput();
      FindFirst();
    }

    /** axr_get_atf from amp_cont: find the end of the text at ampPtr, reading again from the text start
        when the buffer does not hold that end, and with a bigger buffer when it never could. */
    method AmpCont() returns (atf: Option<nat>)
      requires Found()
      modifies this, buf
      ensures buf == old(buf) || fresh(buf)
      ensures var want := old(Covered().Pending(ampPtr, Rest()));
              if atf.Some? then Handed(atf.value, want) else want == []
    {
      hide Chain, Emitted, NextAmp, AmpAt, Terminated, Valid, Handed;
      ghost var want := Covered().Pending(ampPtr, Rest());
      while ampPtr.Some?
        invariant Found()
        invariant buf == old(buf) || fresh(buf)
        invariant want == Covered().Pending(ampPtr, Rest())
        decreases |source.content| - base + 3 - buf.Length
      {
        var end := FindEnd();
        if end.Some? {
          TakeTo(end.value);
          return ampPtr;
        } else if thisOneIsDone {
          TakeLast();
          return ampPtr;
        } else if ampPtr.value == 0 {
          Regrow();
        } else {
          Reread();
        }
      }
      return None;
    }

    /** axr_get_atf: the next text of the run, or None when there is none. */
    method GetAtf() returns (atf: Option<nat>)
      requires Valid()
      modifies this, buf
      ensures buf == old(buf) || fresh(buf)
      ensures if atf.Some? then Handed(atf.value, old(Future())) else old(Future()) == []
    {
      hide Valid, Future, Found;
      var ok := AmpInit();
      if !ok { return None; }
      atf := AmpCont();
    }
  }

  /** What scanning on from the text at offset amp finds. */
  lemma {:induction false} EndOf(sp: Span, amp: nat)
    requires sp.Ok() && amp < sp.len && sp.base + amp < |sp.source.content|
    ensures var n, q := NextAmp(sp.File()[sp.base..sp.base + sp.len], amp + 1), NextAmp(sp.File(), sp.base + amp + 1);
            && (n < sp.len ==> q == sp.base + n)
            && (n == sp.len ==> q >= sp.base + sp.len && (sp.done ==> q == |sp.File()|))
  {
    ScanWindow(sp.File(), sp.base, sp.base + sp.len, amp + 1);
  }

  lemma {:induction false} ChainStep(raw: seq<byte>, p: nat, cap: nat, rest: Files)
    requires p < |raw| && cap >= 4
    ensures var c, q := Terminated(raw), NextAmp(Terminated(raw), p + 1);
            Chain(raw, p, cap, rest) ==
            if q < |raw| then [c[p..q]] + Chain(raw, q, Fit(cap, q - p), rest)
            else [c[p..]] + Emitted(rest, Fit(cap, |raw| - p))
  {
    hide Emitted, Fit, NextAmp;
  }

  lemma {:induction false} StepEnd(sp: Span, amp: nat, e: nat, rest: Files)
    requires sp.Ok() && amp < e < sp.len && sp.base + amp < |sp.source.content|
    requires NextAmp(sp.File(), sp.base + amp + 1) == sp.base + e
    ensures sp.base + e < |sp.source.content|
    ensures sp.Pending(Some(amp), rest) == [sp.File()[sp.base + amp..sp.base + e]] + sp.Pending(Some(e), rest)
  {
    hide Emitted, Chain, NextAmp;
    StartsInFile(sp.source.content, sp.base + e);
    ChainStep(sp.source.content, sp.base + amp, sp.cap, rest);
  }

  lemma {:induction false} StepLast(sp: Span, amp: nat, rest: Files)
    requires sp.Ok() && sp.done && sp.base + amp < |sp.source.content|
    requires NextAmp(sp.File(), sp.base + amp + 1) == |sp.File()|
    ensures sp.Pending(Some(amp), rest) == [sp.File()[sp.base + amp..]] + Emitted(rest, sp.cap)
  {
    hide Emitted, Chain, NextAmp;
    ChainStep(sp.source.content, sp.base + amp, sp.cap, rest);
  }

  lemma {:induction false} FitGrown(cap: nat, len: nat)
    requires cap >= 4 && len >= cap - 3
    ensures Fit(cap, len) == Fit(2 * cap, len)
  {
  }

  lemma {:induction false} StepGrow(sp: Span, rest: Files)
    requires sp.Ok() && !sp.done && NextAmp(sp.File(), sp.base + 1) >= sp.base + sp.len
    ensures sp.Pending(Some(0), rest) == Chain(sp.source.content, sp.base, 2 * sp.cap, rest)
  {
    hide Emitted, Chain, NextAmp, Fit;
    var raw, p := sp.source.content, sp.base;
    ChainStep(raw, p, sp.cap, rest);
    ChainStep(raw, p, 2 * sp.cap, rest);
    FitGrown(sp.cap, |raw| - p);
    var q := NextAmp(Terminated(raw), p + 1);
    FitGrown(sp.cap, q - p);
  }

  lemma {:induction false} NextOpen(files: Files, raw: seq<byte>, rest: Files, cap: nat)
    requires cap >= 4
    requires var k := FirstOpen(files); k < |files| && files[k] == Some(raw) && rest == files[k + 1..]
    ensures Emitted(files, cap) == Emitted([Some(raw)] + rest, cap)
  {
    EmittedSkips(files, cap);
    assert files[FirstOpen(files)..] == [Some(raw)] + rest;
  }

  lemma {:induction false} NoneOpen(files: Files, cap: nat)
    requires cap >= 4 && FirstOpen(files) == |files|
    ensures Emitted(files, cap) == []
  {
    EmittedSkips(files, cap);
    assert files[FirstOpen(files)..] == [];
  }

  /** A file not looked at yet: its texts come next if its first text start is within the buffer. */
  lemma {:induction false} FreshFuture(raw: seq<byte>, cap: nat, rest: Files)
    requires |raw| > 0 && cap >= 4
    ensures var p := NextAmp(Terminated(raw), 0);
            Emitted([Some(raw)] + rest, cap) == if p < |raw| && p < cap - 3 then Chain(raw, p, cap, rest) else []
  {
    assert ([Some(raw)] + rest)[1..] == rest;
  }

  lemma {:induction false} PutBack(s: seq<byte>, e: nat)
    requires e + 1 < |s|
    ensures s[e := NUL][e + 1 := NUL][e := s[e]][e + 1 := s[e + 1]] == s
  {
  }

  lemma {:induction false} SliceOfSlice<T>(s: seq<T>, m: nat, n: nat, a: nat, b: nat)
    requires m <= n <= |s| && a <= b <= n - m
    ensures s[m..n][a..b] == s[m + a..m + b]
  {
    forall k | 0 <= k < b - a ensures s[m..n][a..b][k] == s[m + a..m + b][k] {
      assert s[m..n][a..b][k] == s[m..n][a + k];
    }
  }

  /** What scanning a span from its beginning finds. */
  lemma {:induction false} FrontOf(sp: Span, amp: Option<nat>, rest: Files)
    requires sp.Ok() && sp.len > 0
    requires var n := NextAmp(sp.File()[sp.base..sp.base + sp.len], 0); amp == if n < sp.len then Some(n) else None
    ensures amp.Some? ==> sp.base + amp.value < |sp.source.content| && AmpAt(sp.File(), sp.base + amp.value)
    ensures sp.base == 0 ==> sp.Pending(amp, rest) == Emitted([Some(sp.source.content)] + rest, sp.cap)
    ensures AmpAt(sp.File(), sp.base) ==> amp == Some(0)
  {
    var c := sp.File();
    ScanFront(c, sp.base, sp.base + sp.len);
    if amp.Some? { StartsInFile(sp.source.content, sp.base + amp.value); }
    if sp.base == 0 {
      FreshFuture(sp.source.content, sp.cap, rest);
      var p := NextAmp(c, 0);
      if p < |c| { StartsInFile(sp.source.content, p); }
    }
  }

  /** The run of ax_read: every text, in order, with a buffer of bufLen bytes (8192 in the source). */
  method AxRead(files: Files, bufLen: nat) returns (texts: seq<seq<byte>>)
    requires Readable(files) && bufLen >= 4
    ensures texts == Emitted(files, bufLen)
  {
    hide Emitted, Reader.Valid, Reader.Future;
    texts := [];
    var rip := new Reader(files, bufLen);
    var ok := rip.Start();
    if !ok { return; }
    while true
      invariant rip.Valid() && fresh(rip) && fresh(rip.buf)
      invariant texts + rip.Future() == Emitted(files, bufLen)
      decreases |rip.Future()|
    {
      var atf := rip.GetAtf();
      if atf.None? { return; }
      MoveOver(texts, rip.Text(), rip.Future());
      texts := texts + [rip.buf[atf.value..atf.value + rip.atfLen]];
    }
  }

  lemma {:induction false} MoveOver<T>(a: seq<T>, x: T, b: seq<T>)
    ensures a + ([x] + b) == (a + [x]) + b
  {
  }

  // ---------- What the run amounts to ----------

  /** The texts of every file that opens, file by file. */
  function AllTexts(files: Files): seq<seq<byte>> {
    if files == [] then []
    else if files[0].None? then AllTexts(files[1..])
    else Split(Terminated(files[0].value)) + AllTexts(files[1..])
  }

  /** The file's first text start is in the first bufferful of it. */
  predicate InReach(raw: seq<byte>, cap: nat) {
    var p := NextAmp(Terminated(raw), 0);
    p < |raw| && p < cap - 3
  }

  /** Buffer size after the texts of raw from the text start p. */
  function CapAfter(raw: seq<byte>, p: nat, cap: nat): (r: nat)
    requires p < |raw| && cap >= 4
    ensures r >= cap
    decreases |raw| - p
  {
    var q := NextAmp(Terminated(raw), p + 1);
    if q < |raw| then CapAfter(raw, q, Fit(cap, q - p)) else Fit(cap, |raw| - p)
  }

  /** Every file that opens has its first text start in reach, or else no text is left to find in it or
      after it. The buffer in force is the one the earlier files have grown. */
  predicate AllInReach(files: Files, cap: nat)
    requires cap >= 4
  {
    if files == [] then true
    else if files[0].None? then AllInReach(files[1..], cap)
    else
      var raw := files[0].value;
      if InReach(raw, cap) then
        AllInReach(files[1..], CapAfter(raw, NextAmp(Terminated(raw), 0), cap))
      else AllTexts(files) == []
  }

  lemma {:induction false} ChainIsSplit(raw: seq<byte>, p: nat, cap: nat, rest: Files)
    requires p < |raw| && cap >= 4
    ensures Chain(raw, p, cap, rest) == ChunksFrom(Terminated(raw), p) + Emitted(rest, CapAfter(raw, p, cap))
    decreases |raw| - p
  {
    hide Chain, Emitted, Fit, NextAmp, AmpAt;
    var c := Terminated(raw);
    var q := NextAmp(c, p + 1);
    ChainStep(raw, p, cap, rest);
    if q < |raw| {
      ChainIsSplit(raw, q, Fit(cap, q - p), rest);
      assert ChunksFrom(c, p) == [c[p..q]] + ChunksFrom(c, q);
    } else {
      if q < |c| { StartsInFile(raw, q); }
      assert c[p..q] == c[p..];
      assert ChunksFrom(c, p) == [c[p..]];
    }
  }

  /** The run emits exactly the texts of the files if and only if every text start is in reach. */
  lemma {:induction false} EmittedIsAllTexts(files: Files, cap: nat)
    requires cap >= 4
    ensures Emitted(files, cap) == AllTexts(files) <==> AllInReach(files, cap)
  {
    if files != [] {
      if files[0].None? {
        EmittedIsAllTexts(files[1..], cap);
      } else if InReach(files[0].value, cap) {
        var raw := files[0].value;
        var p := NextAmp(Terminated(raw), 0);
        var own, cap2 := ChunksFrom(Terminated(raw), p), CapAfter(raw, p, cap);
        ChainIsSplit(raw, p, cap, files[1..]);
        EmittedIsAllTexts(files[1..], cap2);
        SameTails(own, Emitted(files[1..], cap2), AllTexts(files[1..]));
      }
    }
  }

  /** Otherwise the run gives the texts of the files before the first that has none in reach, and no others. */
  lemma {:induction false} StopsOutOfReach(files: Files, cap: nat) returns (n: nat, grown: nat)
    requires cap >= 4
    ensures n <= |files| && grown >= cap && Emitted(files, cap) == AllTexts(files[..n])
    ensures n < |files| ==> files[n].Some? && !InReach(files[n].value, grown)
  {
    n, grown := 0, cap;
    if files != [] {
      var f, rest := files[0], files[1..];
      if f.None? {
        n, grown := StopsOutOfReach(rest, cap);
        n := n + 1;
        TextsOfMore(files, n);
      } else if InReach(f.value, cap) {
        var p := NextAmp(Terminated(f.value), 0);
        ChainIsSplit(f.value, p, cap, rest);
        n, grown := StopsOutOfReach(rest, CapAfter(f.value, p, cap));
        n := n + 1;
        TextsOfMore(files, n);
      }
    }
  }

  lemma {:induction false} TextsOfMore(files: Files, n: nat)
    requires 0 < n <= |files|
    ensures AllTexts(files[..n]) ==
            (if files[0].Some? then Split(Terminated(files[0].value)) else []) + AllTexts(files[1..][..n - 1])
  {
    assert files[..n][1..] == files[1..][..n - 1];
  }

  lemma {:induction false} SameTails<T>(a: seq<T>, b: seq<T>, c: seq<T>)
    ensures a + b == a + c <==> b == c
  {
    assert (a + b)[|a|..] == b && (a + c)[|a|..] == c;
  }

  /** Files that begin with `&`, or with a byte order mark and `&`, and a buffer that holds that much. */
  predicate Begins(raw: seq<byte>, cap: nat) {
    exists k :: 0 <= k <= 3 && k < cap - 3 && k < |raw| && AmpAt(raw, k)
  }

  /** For such files nothing depends on the size of the buffer. */
  lemma {:induction false} BufferDoesNotMatter(files: Files, cap: nat)
    requires cap >= 4
    requires forall f :: f in files && f.Some? ==> Begins(f.value, cap)
    ensures Emitted(files, cap) == AllTexts(files)
  {
    BeginsInReach(files, cap);
    EmittedIsAllTexts(files, cap);
  }

  lemma {:induction false} BeginsInReach(files: Files, cap: nat)
    requires cap >= 4
    requires forall f :: f in files && f.Some? ==> Begins(f.value, cap)
    ensures AllInReach(files, cap)
  {
    if files != [] {
      if files[0].None? {
        BeginsInReach(files[1..], cap);
      } else {
        var raw := files[0].value;
        assert Begins(raw, cap);
        var k :| 0 <= k <= 3 && k < cap - 3 && k < |raw| && AmpAt(raw, k);
        assert AmpAt(Terminated(raw), k);
        var p := NextAmp(Terminated(raw), 0);
        assert p <= k;
        var cap2 := CapAfter(raw, p, cap);
        forall f | f in files[1..] && f.Some? ensures Begins(f.value, cap2) {
          assert Begins(f.value, cap);
        }
        BeginsInReach(files[1..], cap2);
      }
    }
  }

  function Blank(n: nat): (s: seq<byte>)
    ensures |s| == n && forall i :: 0 <= i < n ==> s[i] == NL
  {
    seq(n, _ => NL)
  }

  /** Empty lines and then a text. */
  lemma {:induction false} AfterBlank(n: nat)
    ensures var a := Blank(n) + [AMP, NL];
            Terminated(a) == a && NextAmp(a, 0) == n && Split(a) == [[AMP, NL]]
  {
    var a := Blank(n) + [AMP, NL];
    assert a[n] == AMP && a[n + 1] == NL && AmpAt(a, n) && !AmpAt(a, n + 1);
    NextAmpIs(a, 0, n);
    NextAmpIs(a, n + 1, n + 2);
    assert a[n..n + 2] == [AMP, NL];
    assert ChunksFrom(a, n) == [a[n..n + 2]] + ChunksFrom(a, n + 2);
  }

  /** Whatever the buffer, a file with as many empty lines before its text as the buffer holds bytes of it is
      lost, and so is the file after it. */
  lemma {:induction false} OutOfReachLosesTexts(cap: nat)
    requires cap >= 4
    ensures var files: Files := [Some(Blank(cap - 3) + [AMP, NL]), Some([AMP, NL])];
            Emitted(files, cap) == [] && AllTexts(files) == [[AMP, NL], [AMP, NL]]
  {
    var files: Files := [Some(Blank(cap - 3) + [AMP, NL]), Some([AMP, NL])];
    AfterBlank(cap - 3);
    AfterBlank(0);
    assert Blank(0) + [AMP, NL] == [AMP, NL];
    assert files[1..] == [Some([AMP, NL])] && files[1..][1..] == [];
    assert AllTexts(files[1..][1..]) == [];
    assert AllTexts(files[1..]) == [[AMP, NL]];
  }
}
