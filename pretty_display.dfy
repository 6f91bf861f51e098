/**
 * The byte-to-readable-text encoder of the input log: every byte typed by the
 * user becomes a short, human-readable token. Five disjoint classes of byte
 * are rendered differently: control chords, escape, printable ASCII,
 * delete (shown as backspace) and everything else as a hex escape.
 */
module PrettyDisplay {
  import opened Wrappers
  import opened Hex

  /** Bytes 1..26: the control chords Ctrl-A .. Ctrl-Z. */
  predicate IsControlChord(code: Byte) { 1 <= code <= 26 }

  /** Bytes 32..126: printable ASCII, shown as themselves. */
  predicate IsPrintable(code: Byte) { 32 <= code <= 126 }

  /** Bytes that fall through to the hex escape: 0, 28..31 and 128..255. */
  predicate IsOther(code: Byte) {
    !IsControlChord(code) && code != 27 && !IsPrintable(code) && code != 127
  }

  /** The `<C-x>` chord of a byte in 1..26, character by character. */
  function ChordToken(code: Byte): (s: string)
    requires IsControlChord(code)
    ensures |s| == 5 && s[0] == '<' && s[1] == 'C' && s[2] == '-' && s[4] == '>'
    ensures 'A' <= s[3] <= 'Z' && s[3] as int - 'A' as int + 1 == code
  {
    "<C-" + [('A' as int + code - 1) as char] + ">"
  }

  /** The `<0xHH>` escape of a byte, character by character. */
  function HexToken(code: Byte): (s: string)
    ensures |s| == 6 && s[0] == '<' && s[1] == '0' && s[2] == 'x' && s[5] == '>'
    ensures s[3..5] == Hex02(code) && AllUpperHex(s[3..5]) && HexValue(s[3..5]) == code
  {
    var s := "<0x" + Hex02(code) + ">";
    assert s[3..5] == Hex02(code);
    s
  }

  /** The readable token of one byte. */
  function Display(code: Byte): (s: string)
    ensures 1 <= |s| <= 6
    ensures |s| == 1 <==> IsPrintable(code)
    ensures IsPrintable(code) ==> s[0] as int == code
    ensures !IsPrintable(code) ==> s[0] == '<' && s[|s| - 1] == '>'
  {
    if IsControlChord(code) then ChordToken(code)
    else if code == 27 then "<Esc>"
    else if IsPrintable(code) then [code as char]
    else if code == 127 then "<BS>"
    else HexToken(code)
  }

  /** Exactly the bytes 1..26 render as a five-character `<C-x>` chord, and x is the code-th capital letter. */
  lemma ControlChordForm(code: Byte)
    ensures var s := Display(code);
      IsControlChord(code) <==> |s| == 5 && s[..3] == "<C-" && s[4] == '>'
    ensures var s := Display(code);
      IsControlChord(code) ==> 'A' <= s[3] <= 'Z' && s[3] as int - 'A' as int + 1 == code
  {
    var s := Display(code);
    if IsControlChord(code) {
      assert s[..3] == "<C-";
    } else if code == 27 {
      assert s == "<Esc>";
      assert s[..3] != "<C-" by { assert s[..3][1] == 'E'; }
    } else if IsPrintable(code) {
    } else if code == 127 {
    } else {
      assert s[..3] != "<C-" by { assert s[..3][2] == 'x'; }
    }
  }

  /** Only byte 27 renders as `<Esc>`. */
  lemma EscapeForm(code: Byte)
    ensures Display(code) == "<Esc>" <==> code == 27
  {
    var s := Display(code);
    if IsControlChord(code) {
      assert s[1] != "<Esc>"[1];
    } else if IsOther(code) {
      assert |s| != |"<Esc>"|;
    }
  }

  /** Exactly the printable bytes pass through as the one character whose value is the byte. */
  lemma PrintablePassThrough(code: Byte)
    ensures Display(code) == [code as char] <==> IsPrintable(code)
  {
  }

  /** Only byte 127 renders as `<BS>`. */
  lemma BackspaceForm(code: Byte)
    ensures Display(code) == "<BS>" <==> code == 127
  {
    var s := Display(code);
    if IsControlChord(code) || IsOther(code) || code == 27 {
      assert |s| != |"<BS>"|;
    }
  }

  /**
   * Exactly the remaining bytes render as the six-character `<0xHH>`, where HH
   * is two upper-case hex digits that decode to the byte.
   */
  lemma HexEscapeForm(code: Byte)
    ensures var s := Display(code);
      IsOther(code) <==> |s| == 6 && s[..3] == "<0x" && s[5] == '>'
    ensures var s := Display(code);
      IsOther(code) ==> |s| == 6 && AllUpperHex(s[3..5]) && HexValue(s[3..5]) == code
  {
    var s := Display(code);
    if IsOther(code) {
      assert s == HexToken(code);
      assert s[..3] == "<0x" by {
        assert s[..3][0] == '<' && s[..3][1] == '0' && s[..3][2] == 'x';
      }
      assert HexValue(s[3..5]) == code;
    } else if IsControlChord(code) {
      assert s[..3] != "<0x" by { assert s[..3][2] == '-'; }
    } else if code == 27 {
      assert s == "<Esc>";
    } else if IsPrintable(code) {
      assert |s| == 1;
    } else {
      assert s == "<BS>";
    }
  }

  /**
   * Reads one token back: the inverse of Display. It accepts only the exact
   * form Display gives each byte (a hex escape of a printable byte, or
   * lower-case hex digits, are rejected).
   */
  function ParseToken(s: string): (r: Option<Byte>)
  {
    if |s| == 1 && 32 <= s[0] as int <= 126 then Some(s[0] as int)
    else if s == "<Esc>" then Some(27)
    else if s == "<BS>" then Some(127)
    else if |s| == 5 && s[..3] == "<C-" && s[4] == '>' && 'A' <= s[3] <= 'Z' then
      Some(s[3] as int - 'A' as int + 1)
    else if |s| == 6 && s[..3] == "<0x" && s[5] == '>' && AllUpperHex(s[3..5]) then
      Hex02Canonical(s[3..5]);
      var v: Byte := HexValue(s[3..5]);
      if IsOther(v) then Some(v) else None
    else None
  }

  /** Decoding a rendered byte gives the byte back. */
  lemma ParseDisplay(code: Byte)
    ensures ParseToken(Display(code)) == Some(code)
  {
    var s := Display(code);
    if IsOther(code) {
      HexEscapeForm(code);
      Hex02Canonical(s[3..5]);
      assert s != "<Esc>" && s != "<BS>";
    } else if IsControlChord(code) {
      ControlChordForm(code);
      assert s != "<Esc>" by { assert s[1] != "<Esc>"[1]; }
    } else if code == 127 {
      assert s != "<Esc>";
    }
  }

  /** Whatever ParseToken accepts is the rendering of the byte it returns. */
  lemma ParseTokenExact(s: string, code: Byte)
    requires ParseToken(s) == Some(code)
    ensures Display(code) == s
  {
    if |s| == 1 && 32 <= s[0] as int <= 126 {
      assert Display(code) == [s[0]];
    } else if s == "<Esc>" || s == "<BS>" {
    } else if |s| == 5 && s[..3] == "<C-" && s[4] == '>' && 'A' <= s[3] <= 'Z' {
      ChordExact(s, code);
    } else {
      HexEscapeExact(s, code);
    }
  }

  lemma ChordExact(s: string, code: Byte)
    requires |s| == 5 && s[..3] == "<C-" && s[4] == '>' && 'A' <= s[3] <= 'Z'
    requires code == s[3] as int - 'A' as int + 1
    ensures Display(code) == s
  {
    var t := Display(code);
    assert s[0] == s[..3][0] && s[1] == s[..3][1] && s[2] == s[..3][2];
    assert forall i | 0 <= i < 5 :: t[i] == s[i];
  }

  lemma HexEscapeExact(s: string, code: Byte)
    requires |s| == 6 && s[..3] == "<0x" && s[5] == '>' && AllUpperHex(s[3..5])
    requires code == HexValue(s[3..5]) && IsOther(code)
    ensures Display(code) == s
  {
    var t := HexToken(code);
    assert Display(code) == t;
    var h := s[3..5];
    Hex02Canonical(h);
    assert t[3..5] == h;
    assert t[3] == t[3..5][0] == s[3] && t[4] == t[3..5][1] == s[4];
    assert s[0] == s[..3][0] && s[1] == s[..3][1] && s[2] == s[..3][2];
    assert forall i | 0 <= i < 6 :: t[i] == s[i];
  }

  /** Distinct bytes render as distinct tokens. */
  lemma DisplayInjective(a: Byte, b: Byte)
    ensures Display(a) == Display(b) <==> a == b
  {
    ParseDisplay(a);
    ParseDisplay(b);
  }
}
