# typyr input-log encoder, in Dafny

typyr runs a command inside a pseudo-terminal and forwards the user's
keystrokes to it. Every chunk of bytes read from standard input is written
to the child and also logged to a file in a readable form. This project
models that readable form: the byte encoder `pretty_display` and the
rendering of a whole read buffer as the concatenation of per-byte tokens.

Each byte falls into exactly one of five classes:

- bytes 1..26 become the control chords `<C-A>` .. `<C-Z>`;
- byte 27 becomes `<Esc>`;
- printable ASCII (32..126) is shown as itself;
- byte 127 becomes `<BS>`;
- every other byte (0, 28..31, 128..255) becomes `<0xHH>`, with HH written
  the way Rust's `{:02X}` writes it: upper-case hex, zero-padded to two
  digits.

Layout:

- `wrappers.dfy` (module `Wrappers`): the `Option` datatype used by the token decoder.
- `hex.dfy` (module `Hex`): the `Byte` type (Rust `u8`) and `{:02X}`. That
  format is built from its parts: the shortest upper-case numeral
  (`UpperHex`), then left padding with `'0'` (`PadLeft`). `HexValue`
  reads a numeral back, to state round trips.
- `pretty_display.dfy` (module `PrettyDisplay`): the encoder `Display`, one
  lemma per match arm, and the strict decoder `ParseToken`. `ParseToken` is
  proved to be the exact inverse of `Display`, which gives injectivity.
- `input_log.dfy` (module `InputLog`): `Render` of a buffer and its laws.
  These are: concatenation, printable pass-through, exact length, and the
  log file as the rendering of everything forwarded. The rendering is shown
  not to be uniquely decodable.

The arithmetic `b'A' + code - 1` in the control-chord arm is on `u8`, but for
codes 1..26 its largest intermediate value is 91, so there is no wrap-around
to model. Every token is ASCII, so a Rust `String` (UTF-8) and a Dafny
`string` of the same characters agree.

## Model

| member | source | states |
|---|---|---|
| PrettyDisplay.Display | src/main.rs:14-22 | Every token has 1 to 6 characters. It is one character exactly when the byte is printable ASCII, and that character's value is the byte. Every other token starts with `<` and ends with `>`. |
| PrettyDisplay.ChordToken | src/main.rs:16 | The chord of a byte in 1..26 is `<C-` then one capital letter then `>`. The letter's position in the alphabet (A = 1) is the byte. |
| PrettyDisplay.HexToken | src/main.rs:20 | The escape of a byte is `<0x` then two upper-case hex digits then `>`. The digits are the byte's `{:02X}` form, and their value is the byte. |
| PrettyDisplay.ControlChordForm | src/main.rs:16 | Exactly the bytes 1..26 render as a five-character `<C-x>`. In that case x is a capital letter, and its position in the alphabet (A = 1) is the byte. |
| PrettyDisplay.EscapeForm | src/main.rs:17 | A token is `<Esc>` if and only if the byte is 27. |
| PrettyDisplay.PrintablePassThrough | src/main.rs:18 | A byte renders as the single character of the same value if and only if it is in 32..126. |
| PrettyDisplay.BackspaceForm | src/main.rs:19 | A token is `<BS>` if and only if the byte is 127. |
| PrettyDisplay.HexEscapeForm | src/main.rs:20 | Exactly the remaining bytes (0, 28..31, 128..255) render as a six-character `<0x..>`. Its two middle characters are upper-case hex digits that decode to the byte. |
| PrettyDisplay.ParseDisplay | src/main.rs:14-22 | Decoding the token of any byte gives that byte back. |
| PrettyDisplay.ParseTokenExact | src/main.rs:14-22 | Any string the decoder accepts is exactly the token of the byte it returns. So a string is the token of a byte if and only if it decodes to that byte. |
| PrettyDisplay.ChordExact | src/main.rs:16 | Every `<C-x>` with x a capital letter is the token of byte (position of x in the alphabet). |
| PrettyDisplay.HexEscapeExact | src/main.rs:20 | Every `<0xHH>` (HH upper-case) whose value is a byte of the hex-escaped class is that byte's token. |
| PrettyDisplay.DisplayInjective | src/main.rs:14-22 | Two bytes have the same token if and only if they are the same byte. |
| Hex.HexDigit | src/main.rs:20 | The digit written for a value below 16 is an upper-case hex digit, and it decodes to that value. |
| Hex.DigitRoundTrip | src/main.rs:20 | Each upper-case hex digit is the digit written for its own value. |
| Hex.UpperHex | src/main.rs:20 | The unpadded hex numeral of n is non-empty and upper-case, and its value is n. It has no leading zero except for n = 0, and it has at most two digits when n is below 256. |
| Hex.PadLeft | src/main.rs:20 | Zero padding to width w gives a string of length max(w, length). It ends with the original numeral and is filled before it. |
| Hex.LeadingZeros | src/main.rs:20 | Leading zeros do not change the value of a hex numeral. |
| Hex.Hex02 | src/main.rs:20 | For every byte, `{:02X}` prints exactly two upper-case hex digits whose value is the byte. |
| Hex.TwoDigits | src/main.rs:20 | A two-digit numeral's value is 16 times its first digit plus its second. |
| Hex.Hex02Canonical | src/main.rs:20 | Every two-digit upper-case numeral has a value below 256, and it is exactly the `{:02X}` form of that value. So `{:02X}` is a bijection between bytes and such numerals. |
| InputLog.Render | src/main.rs:92 | A buffer of n bytes logs as between n and 6n characters. The log is empty if and only if the buffer is. |
| InputLog.RenderSingle | src/main.rs:92 | A one-byte buffer logs as that byte's token. |
| InputLog.RenderAppend | src/main.rs:92 | The log of a concatenation of buffers is the concatenation of their logs, in order. |
| InputLog.RenderPrintable | src/main.rs:92 | A buffer of printable ASCII logs as exactly the characters with those values. |
| InputLog.RenderLengthExact | src/main.rs:92 | The log is as long as the buffer if and only if every byte is printable ASCII. |
| InputLog.RenderAmbiguous | src/main.rs:92 | Typing the five printable bytes `<C-A>` logs the same text as pressing Ctrl-A. So the log cannot always be decoded back into the bytes. |
| InputLog.Flatten | src/main.rs:89 | The bytes written to the child over a sequence of reads are empty exactly when every read was empty. |
| InputLog.FlattenSnoc | src/main.rs:89 | One more read appends exactly its bytes to what was written to the child before. |
| InputLog.FlattenAppend | src/main.rs:89 | The bytes written to the child over two runs of reads are those of the first run followed by those of the second. With FlattenSingle this means every read is forwarded whole and in order. |
| InputLog.FlattenSingle | src/main.rs:89 | A single read forwards exactly its own bytes. |
| InputLog.FlattenEnds | src/main.rs:89 | What is written to the child begins with the first read's bytes and ends with the last read's bytes. |
| InputLog.LogFile | src/main.rs:93 | After a sequence of reads, the log file holds between n and 6n characters, where n is the number of bytes forwarded. It is empty exactly when nothing was forwarded. |
| InputLog.LogFileIsRenderOfForwarded | src/main.rs:89-93 | After any sequence of reads, the log file holds the rendering of exactly the bytes written to the child, in order. This holds whatever the read boundaries were. |

## Left out

- `spawn_shell` (src/main.rs:25-59): opens a pseudo-terminal and spawns the child through a foreign library. Not modelled.
- The two pump threads in `main` (src/main.rs:73-116): blocking reads from standard input and the pseudo-terminal, writes to the child and to standard output, and the `tmux refresh-client` subprocess. These are concurrent I/O. Only their effect on the log text is modelled (`LogFileIsRenderOfForwarded`), with each read taken as a given chunk of bytes.
- The two pumps treat a zero-byte read differently: the input pump stops (src/main.rs:86-88), the output pump retries (src/main.rs:108-110). This is part of the excluded I/O loops.
- Opening and truncating `/tmp/file.txt`, and `unwrap` panics on I/O errors: file-system effects. The log file starts empty in `LogFile`.
- Raw-mode enable and disable, screen clearing, and `child.wait()` (src/main.rs:64, 71, 118-121): terminal and process effects.
- src/main_1.rs: a raw-mode experiment that only prints what it reads. It has no logic to state.
