/**
 * The input pump's log line: a read buffer of n bytes is turned into text by
 * rendering each byte with Display and concatenating the tokens in order.
 */
module InputLog {
  import opened Hex
  import opened PrettyDisplay

  /** The text logged for a buffer of bytes. */
  function Render(buf: seq<Byte>): (r: string)
    ensures |buf| <= |r| <= 6 * |buf|
    ensures r == [] <==> buf == []
  {
    if buf == [] then [] else Display(buf[0]) + Render(buf[1..])
  }

  /** One byte renders as its own token. */
  lemma RenderSingle(b: Byte)
    ensures Render([b]) == Display(b)
  {
    assert [b][1..] == [];
  }

  /** Rendering distributes over concatenation of buffers. */
  lemma {:induction false} RenderAppend(xs: seq<Byte>, ys: seq<Byte>)
    ensures Render(xs + ys) == Render(xs) + Render(ys)
  {
    if xs == [] {
      assert xs + ys == ys;
    } else {
      assert (xs + ys)[1..] == xs[1..] + ys;
      RenderAppend(xs[1..], ys);
    }
  }

  predicate AllPrintable(buf: seq<Byte>) {
    forall i :: 0 <= i < |buf| ==> IsPrintable(buf[i])
  }

  /** The characters whose values are the given bytes. */
  function AsChars(buf: seq<Byte>): string
  {
    seq(|buf|, i requires 0 <= i < |buf| => buf[i] as char)
  }

  /** A buffer of printable ASCII is logged as the very same characters. */
  lemma {:induction false} RenderPrintable(buf: seq<Byte>)
    requires AllPrintable(buf)
    ensures Render(buf) == AsChars(buf)
  {
    if buf != [] {
      RenderPrintable(buf[1..]);
      assert AsChars(buf) == [buf[0] as char] + AsChars(buf[1..]);
    }
  }

  /** The log text is exactly as long as the buffer if and only if every byte is printable. */
  lemma {:induction false} RenderLengthExact(buf: seq<Byte>)
    ensures |Render(buf)| == |buf| <==> AllPrintable(buf)
  {
    if buf != [] {
      RenderLengthExact(buf[1..]);
      if !IsPrintable(buf[0]) {
        // the first token is longer than one character and the rest is at least as long as its buffer
        assert |Render(buf)| > |buf|;
      } else {
        assert AllPrintable(buf) <==> AllPrintable(buf[1..]) by {
          if AllPrintable(buf[1..]) {
            forall i | 0 <= i < |buf| ensures IsPrintable(buf[i]) {
              if i > 0 { assert buf[i] == buf[1..][i - 1]; }
            }
          }
        }
      }
    }
  }

  /**
   * The log is not uniquely decodable: the five printable bytes `<`, `C`,
   * `-`, `A`, `>` are logged exactly as the single byte Ctrl-A is.
   */
  lemma RenderAmbiguous()
    ensures var typed: seq<Byte> := [60, 67, 45, 65, 62];
      typed != [1] && Render(typed) == Render([1])
  {
    var typed: seq<Byte> := [60, 67, 45, 65, 62];
    RenderPrintable(typed);
    RenderSingle(1);
  }

  /** All bytes of a sequence of reads, in order: what the pump forwards to the child. */
  function Flatten(chunks: seq<seq<Byte>>): (r: seq<Byte>)
    ensures r == [] <==> forall i :: 0 <= i < |chunks| ==> chunks[i] == []
  {
    if chunks == [] then [] else Flatten(chunks[..|chunks| - 1]) + chunks[|chunks| - 1]
  }

  /** One more read appends exactly its bytes to what was forwarded before. */
  lemma FlattenSnoc(init: seq<seq<Byte>>, last: seq<Byte>)
    ensures Flatten(init + [last]) == Flatten(init) + last
  {
    var c := init + [last];
    assert c[..|c| - 1] == init;
  }

  /** Forwarding two runs of reads forwards the bytes of the first run, then those of the second. */
  lemma {:induction false} FlattenAppend(a: seq<seq<Byte>>, b: seq<seq<Byte>>)
    ensures Flatten(a + b) == Flatten(a) + Flatten(b)
    decreases |b|
  {
    if b == [] {
      assert a + b == a;
    } else {
      var init, last := b[..|b| - 1], b[|b| - 1];
      calc {
        Flatten(a + b);
        { assert a + b == (a + init) + [last]; }
        Flatten((a + init) + [last]);
        { FlattenSnoc(a + init, last); }
        Flatten(a + init) + last;
        { FlattenAppend(a, init); }
        Flatten(a) + Flatten(init) + last;
        { assert b == init + [last]; FlattenSnoc(init, last); }
        Flatten(a) + Flatten(b);
      }
    }
  }

  /** Every read is forwarded whole: the bytes forwarded by one read are that read's bytes. */
  lemma FlattenSingle(chunk: seq<Byte>)
    ensures Flatten([chunk]) == chunk
  {
    assert [chunk][..0] == [];
  }

  /** What is forwarded begins with the first read and ends with the last. */
  lemma FlattenEnds(chunks: seq<seq<Byte>>)
    requires chunks != []
    ensures chunks[0] <= Flatten(chunks)
    ensures |chunks[|chunks| - 1]| <= |Flatten(chunks)|
    ensures Flatten(chunks)[|Flatten(chunks)| - |chunks[|chunks| - 1]|..] == chunks[|chunks| - 1]
  {
    var r := Flatten(chunks);
    assert chunks[0] <= r by {
      assert chunks == [chunks[0]] + chunks[1..];
      FlattenAppend([chunks[0]], chunks[1..]);
      FlattenSingle(chunks[0]);
    }
    var front, last := Flatten(chunks[..|chunks| - 1]), chunks[|chunks| - 1];
    assert r == front + last;
    assert r[|front|..] == last;
  }

  /** The log file after a sequence of reads: each read's rendering appended in turn. */
  function LogFile(chunks: seq<seq<Byte>>): (r: string)
    ensures |Flatten(chunks)| <= |r| <= 6 * |Flatten(chunks)|
    ensures r == [] <==> Flatten(chunks) == []
  {
    if chunks == [] then [] else LogFile(chunks[..|chunks| - 1]) + Render(chunks[|chunks| - 1])
  }

  /** The log file is the rendering of exactly the bytes forwarded to the child, whatever the read boundaries. */
  lemma {:induction false} LogFileIsRenderOfForwarded(chunks: seq<seq<Byte>>)
    ensures LogFile(chunks) == Render(Flatten(chunks))
  {
    if chunks != [] {
      var init := chunks[..|chunks| - 1];
      LogFileIsRenderOfForwarded(init);
      RenderAppend(Flatten(init), chunks[|chunks| - 1]);
    }
  }
}
