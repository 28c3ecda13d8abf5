/** The framing codec of the trivia protocol (chatlib.py): a message travels as
    `<command padded to 16>|<data length, 4 digits>|<data>`, with the whole frame stripped of
    surrounding whitespace, and the data may carry `#`-separated sub-fields. */
module Chatlib {
  import opened Wrappers
  import opened Text

  // ---------------------------------------------------------------------------
  // Protocol constants
  // ---------------------------------------------------------------------------

  const CmdFieldLength: nat := 16
  const LengthFieldLength: nat := 4
  /** The largest length the 4-digit length field can express. */
  const MaxDataLength: nat := Pow10(LengthFieldLength) - 1
  const MsgHeaderLength: nat := CmdFieldLength + 1 + LengthFieldLength + 1
  const MaxMsgLength: nat := MsgHeaderLength + MaxDataLength
  const Delimiter: char := '|'
  const DataDelimiter: char := '#'

  /** Commands a client may send. */
  const C2SOrders: seq<string> :=
    ["LOGIN", "LOGOUT", "LOGGED", "GET_QUESTION", "SEND_ANSWER", "MY_SCORE", "HIGHSCORE"]
  /** Commands a server may answer with. */
  const S2COrders: seq<string> :=
    ["LOGIN_OK", "LOGGED_ANSWER", "YOUR_QUESTION", "CORRECT_ANSWER", "WRONG_ANSWER",
     "YOUR_SCORE", "ALL_SCORE", "ERROR", "NO_QUESTIONS"]

  /** A decoded message: command name and data field. */
  datatype Message = Message(cmd: string, data: string)

  // ---------------------------------------------------------------------------
  // Building and parsing frames
  // ---------------------------------------------------------------------------

  /** The four-digit length field for a payload of `n` characters. */
  function LengthDigits(n: nat): string {
    ZFill(NatToString(n), LengthFieldLength)
  }

  /** The command field: the command followed by spaces up to `CmdFieldLength`. */
  function PadCommand(cmd: string): string
    requires |cmd| <= CmdFieldLength
  {
    cmd + Repeat(' ', CmdFieldLength - |cmd|)
  }

  /** Encodes a message, or `None` when the command or the data does not fit its field. */
  function BuildMessage(cmd: string, data: string): (r: Option<string>)
    ensures r.None? <==> |cmd| > CmdFieldLength || |data| > MaxDataLength
    ensures r.Some? ==> |r.value| <= MsgHeaderLength + |data| <= MaxMsgLength
  {
    if |cmd| > CmdFieldLength then None
    else if |data| > MaxDataLength then None
    else
      LengthDigitsWidth(|data|);
      Some(Strip(PadCommand(cmd) + [Delimiter] + LengthDigits(|data|) + [Delimiter] + data))
  }

  /** A received length field, normalised: whitespace stripped, then leading zeros, with
      nothing left read as "0". */
  function LengthField(field: string): (r: string)
    ensures r != [] && (r == "0" || r[0] != '0')
    ensures AllDigits(Strip(field)) ==> AllDigits(r)
  {
    var t := StripZeros(Strip(field));
    if t == [] then "0" else t
  }

  /** Decodes a frame: the command is the stripped text before the first `|`, the data is
      everything after the second `|`, and the frame is accepted only if the normalised
      length field is the decimal length of the data. */
  function ParseMessage(frame: string): (r: Option<Message>)
    ensures Count(frame, Delimiter) < 2 ==> r.None?
    ensures r.Some? ==> Delimiter !in r.value.cmd
  {
    var parts := SplitN(frame, Delimiter, 2);
    SplitTwice(frame, parts);
    if |parts| < 3 then None
    else
      // the split limit leaves exactly three pieces here (SplitTwice), so the source's
      // re-joining branch for more than three pieces cannot be taken
      var data := parts[2];
      var temp := LengthField(parts[1]);
      if NatToString(|data|) != temp then None
      else
        StripKeepsOut(parts[0], Delimiter);
        Some(Message(Strip(parts[0]), data))
  }

  /** `frame.split('|', 2)` yields at most three pieces, three exactly when the frame holds
      two delimiters; the third piece is then everything after the second delimiter. */
  lemma SplitTwice(frame: string, parts: seq<string>)
    requires parts == SplitN(frame, Delimiter, 2)
    ensures |parts| <= 3
    ensures |parts| == 3 <==> Count(frame, Delimiter) >= 2
    ensures |parts| == 3 ==>
      && Delimiter !in parts[0]
      && |frame| - |parts[2]| >= 2
      && frame[|frame| - |parts[2]|..] == parts[2]
      && frame[|frame| - |parts[2]| - 1] == Delimiter
      && Count(frame[..|frame| - |parts[2]|], Delimiter) == 2
  {
    SplitNCount(frame, Delimiter, 2);
    if |parts| == 3 {
      SplitNFree(frame, Delimiter, 2);
      SplitNJoin(frame, Delimiter, 2);
      JoinThree(parts, Delimiter);
      ThreeFields(frame, parts[0], parts[1], parts[2]);
    }
  }

  lemma JoinThree(xs: seq<string>, d: char)
    requires |xs| == 3
    ensures Join(xs, d) == xs[0] + [d] + xs[1] + [d] + xs[2]
  {
    assert Join(xs[1..][1..], d) == xs[2];
  }

  /** Where the pieces of `a|b|c` sit when `a` and `b` hold no delimiter. */
  lemma ThreeFields(frame: string, a: string, b: string, c: string)
    requires frame == a + [Delimiter] + b + [Delimiter] + c
    requires Delimiter !in a && Delimiter !in b
    ensures |frame| - |c| >= 2
    ensures frame[|frame| - |c|..] == c
    ensures frame[|frame| - |c| - 1] == Delimiter
    ensures Count(frame[..|frame| - |c|], Delimiter) == 2
  {
    var n := |frame| - |c|;
    assert frame[..n] == a + [Delimiter] + b + [Delimiter];
    assert multiset(frame[..n]) == multiset(a) + multiset{Delimiter} + multiset(b) + multiset{Delimiter};
  }

  /** Decoding a frame `a|b|d` whose first two fields hold no `|`: it succeeds exactly when the
      normalised length field `b` is the length of `d`, and then yields `(strip(a), d)`.
      Together with `ParseMessage`'s "fewer than two `|`" clause this describes every input. */
  lemma ParseMessageFields(a: string, b: string, d: string)
    requires Delimiter !in a && Delimiter !in b
    ensures ParseMessage(a + [Delimiter] + b + [Delimiter] + d)
         == if LengthField(b) == NatToString(|d|) then Some(Message(Strip(a), d)) else None
  {
    var frame := a + [Delimiter] + b + [Delimiter] + d;
    var parts := SplitN(frame, Delimiter, 2);
    SplitFrame(frame, a, b, d, parts);
    ParseMessageOfParts(frame, parts);
  }

  /** Regrouping the frame around its second delimiter. */
  lemma RegroupFrame(a: string, b: string, c: string, d: char)
    ensures a + [d] + b + [d] + c == a + [d] + (b + [d] + c)
  {
  }

  lemma SplitFrame(frame: string, a: string, b: string, d: string, parts: seq<string>)
    requires Delimiter !in a && Delimiter !in b
    requires frame == a + [Delimiter] + b + [Delimiter] + d
    requires parts == SplitN(frame, Delimiter, 2)
    ensures |parts| == 3 && parts[0] == a && parts[1] == b && parts[2] == d
  {
    RegroupFrame(a, b, d, Delimiter);
    SplitNFirst(a, Delimiter, b + [Delimiter] + d, 2);
    SplitNFirst(b, Delimiter, d, 1);
  }

  lemma ParseMessageOfParts(frame: string, parts: seq<string>)
    requires parts == SplitN(frame, Delimiter, 2) && |parts| == 3
    ensures ParseMessage(frame)
         == if LengthField(parts[1]) == NatToString(|parts[2]|)
            then Some(Message(Strip(parts[0]), parts[2])) else None
  {
  }

  // ---------------------------------------------------------------------------
  // Data sub-fields
  // ---------------------------------------------------------------------------

  /** `msg.split('#')`: every field, empty ones included, in order, with no arity check. */
  function SplitData(msg: string): (r: seq<string>)
    ensures |r| == Count(msg, DataDelimiter) + 1
    ensures JoinData(r) == msg
    ensures forall k :: 0 <= k < |r| ==> DataDelimiter !in r[k]
  {
    Split(msg, DataDelimiter)
  }

  /** `'#'.join(fields)`. A non-empty list of `#`-free fields is split back into itself;
      `SplitData` states the converse. */
  function JoinData(fields: seq<string>): (r: string)
    ensures |fields| >= 1 && (forall k :: 0 <= k < |fields| ==> DataDelimiter !in fields[k])
            ==> SplitN(r, DataDelimiter, -1) == fields
  {
    JoinSplitsBack(fields, DataDelimiter);
    Join(fields, DataDelimiter)
  }

  // ---------------------------------------------------------------------------
  // Helper facts about the header fields
  // ---------------------------------------------------------------------------

  /** Every length up to `MaxDataLength` fits the length field as exactly four digits. */
  lemma LengthDigitsWidth(n: nat)
    requires n <= MaxDataLength
    ensures |LengthDigits(n)| == LengthFieldLength
    ensures AllDigits(LengthDigits(n))
    ensures Delimiter !in LengthDigits(n)
  {
    NatToStringWidth(n, LengthFieldLength);
    var s := NatToString(n);
    var z := LengthDigits(n);
    forall i | 0 <= i < |z| ensures IsDigit(z[i]) {
      if i >= |z| - |s| {
        assert z[i] == z[|z| - |s|..][i - (|z| - |s|)];
      }
    }
  }

  // ---------------------------------------------------------------------------
  // Laws of the codec
  // ---------------------------------------------------------------------------

  /** A length field written by `BuildMessage` normalises back to the decimal length. */
  lemma LengthFieldOfDigits(n: nat)
    requires n <= MaxDataLength
    ensures LengthField(LengthDigits(n)) == NatToString(n)
  {
    LengthDigitsWidth(n);
    var z := LengthDigits(n);
    var s := NatToString(n);
    DigitsUnstripped(z);
    StripZerosPadded(z, s);
    assert Strip(z) == z;
    if n == 0 {
      assert s == "0";
      assert forall i :: 0 <= i < |z| ==> z[i] == '0';
      StripZerosOfZeros(z);
    } else {
      assert StripZeros(z) == s;
    }
  }

  /** What stripping does to a built frame: leading whitespace of the padded command and
      trailing whitespace of the data go; the two delimiters and the length field stay. */
  lemma StrippedFrame(cmd: string, data: string)
    requires |cmd| <= CmdFieldLength && |data| <= MaxDataLength
    ensures BuildMessage(cmd, data)
         == Some(StripLeft(PadCommand(cmd)) + [Delimiter] + LengthDigits(|data|) + [Delimiter]
                 + StripRight(data))
  {
    StripAroundSeparators(PadCommand(cmd), LengthDigits(|data|), data, Delimiter);
  }

  /** Round trip: a command of at most 16 characters without `|` and data of at most 9999
      characters come back as (stripped command, data) exactly when the data does not end in
      whitespace; otherwise the frame's own stripping shortens the payload and the length
      check rejects it. */
  lemma RoundTrip(cmd: string, data: string)
    requires |cmd| <= CmdFieldLength && Delimiter !in cmd
    requires |data| <= MaxDataLength
    ensures BuildMessage(cmd, data).Some?
    ensures ParseMessage(BuildMessage(cmd, data).value)
         == if EndsInSpace(data) then None else Some(Message(Strip(cmd), data))
  {
    StrippedFrame(cmd, data);
    PaddedCommandClean(cmd);
    LengthDigitsWidth(|data|);
    ParseMessageFields(StripLeft(PadCommand(cmd)), LengthDigits(|data|), StripRight(data));
    LengthFieldOfDigits(|data|);
    NatToStringInjective(|data|, |StripRight(data)|);
    StripRightLength(data);
  }

  /** The padded command, once left-stripped, holds no delimiter and strips to the command. */
  lemma PaddedCommandClean(cmd: string)
    requires |cmd| <= CmdFieldLength && Delimiter !in cmd
    ensures Delimiter !in StripLeft(PadCommand(cmd))
    ensures Strip(StripLeft(PadCommand(cmd))) == Strip(cmd)
  {
    assert Delimiter !in PadCommand(cmd);
    StripPadded(cmd, Repeat(' ', CmdFieldLength - |cmd|));
  }

  /** The exact layout of a frame whose command starts with a non-space character and whose
      data does not end in whitespace: the 16-character padded command, `|`, four length
      digits, `|`, then the data unchanged, `MsgHeaderLength` characters of header in all. */
  lemma BuildMessageLayout(cmd: string, data: string)
    requires 1 <= |cmd| <= CmdFieldLength && !IsSpace(cmd[0])
    requires |data| <= MaxDataLength && !EndsInSpace(data)
    ensures BuildMessage(cmd, data).Some?
    ensures var f := BuildMessage(cmd, data).value;
      && |f| == MsgHeaderLength + |data|
      && f[..|cmd|] == cmd
      && (forall i :: |cmd| <= i < CmdFieldLength ==> f[i] == ' ')
      && f[CmdFieldLength] == Delimiter
      && f[CmdFieldLength + 1..MsgHeaderLength - 1] == LengthDigits(|data|)
      && LengthField(f[CmdFieldLength + 1..MsgHeaderLength - 1]) == NatToString(|data|)
      && f[MsgHeaderLength - 1] == Delimiter
      && f[MsgHeaderLength..] == data
  {
    StrippedFrame(cmd, data);
    StripRightLength(data);
    LengthDigitsWidth(|data|);
    LengthFieldOfDigits(|data|);
    PadCommandLayout(cmd);
    var p := PadCommand(cmd);
    var f := p + [Delimiter] + LengthDigits(|data|) + [Delimiter] + data;
    assert BuildMessage(cmd, data).value == f;
    CommandLayout(cmd, p, LengthDigits(|data|), data, f);
  }

  /** The positions of a frame built from a command field laid out as `PadCommandLayout`
      describes. */
  lemma CommandLayout(cmd: string, p: string, l: string, d: string, f: string)
    requires |cmd| <= CmdFieldLength && |p| == CmdFieldLength && p[..|cmd|] == cmd
    requires forall i :: |cmd| <= i < CmdFieldLength ==> p[i] == ' '
    requires |l| == LengthFieldLength && f == p + [Delimiter] + l + [Delimiter] + d
    ensures |f| == MsgHeaderLength + |d|
    ensures f[..|cmd|] == cmd
    ensures forall i :: |cmd| <= i < CmdFieldLength ==> f[i] == ' '
    ensures f[CmdFieldLength] == Delimiter
    ensures f[CmdFieldLength + 1..MsgHeaderLength - 1] == l
    ensures f[MsgHeaderLength - 1] == Delimiter
    ensures f[MsgHeaderLength..] == d
  {
    FrameLayout(p, l, d);
    assert f[..|cmd|] == f[..CmdFieldLength][..|cmd|];
    assert forall i :: |cmd| <= i < CmdFieldLength ==> f[i] == f[..CmdFieldLength][i];
  }

  /** The command field starts with the command and is filled up with spaces; it is not
      stripped when the command starts with a non-space character. */
  lemma PadCommandLayout(cmd: string)
    requires 1 <= |cmd| <= CmdFieldLength && !IsSpace(cmd[0])
    ensures |PadCommand(cmd)| == CmdFieldLength
    ensures PadCommand(cmd)[..|cmd|] == cmd
    ensures forall i :: |cmd| <= i < CmdFieldLength ==> PadCommand(cmd)[i] == ' '
    ensures StripLeft(PadCommand(cmd)) == PadCommand(cmd)
  {
    var p := PadCommand(cmd);
    assert p[0] == cmd[0];
    forall i | |cmd| <= i < CmdFieldLength ensures p[i] == ' ' {
      assert p[i] == Repeat(' ', CmdFieldLength - |cmd|)[i - |cmd|];
    }
  }

  /** Positions in `p|l|d` for a 16-character command field and a 4-character length field. */
  lemma FrameLayout(p: string, l: string, d: string)
    requires |p| == CmdFieldLength && |l| == LengthFieldLength
    ensures |p + [Delimiter] + l + [Delimiter] + d| == MsgHeaderLength + |d|
    ensures (p + [Delimiter] + l + [Delimiter] + d)[..CmdFieldLength] == p
    ensures (p + [Delimiter] + l + [Delimiter] + d)[CmdFieldLength] == Delimiter
    ensures (p + [Delimiter] + l + [Delimiter] + d)[CmdFieldLength + 1..MsgHeaderLength - 1] == l
    ensures (p + [Delimiter] + l + [Delimiter] + d)[MsgHeaderLength - 1] == Delimiter
    ensures (p + [Delimiter] + l + [Delimiter] + d)[MsgHeaderLength..] == d
  {
    var f := p + [Delimiter] + l + [Delimiter] + d;
    assert f[..CmdFieldLength] == p;
    assert f[CmdFieldLength + 1..MsgHeaderLength - 1] == l;
    assert f[MsgHeaderLength..] == d;
  }

  /** Only the payload's length is checked: a payload replaced by another of the same length
      is accepted as it stands. */
  lemma ParseAcceptsSameLength(a: string, b: string, d: string, d': string)
    requires Delimiter !in a && Delimiter !in b && |d'| == |d|
    requires ParseMessage(a + [Delimiter] + b + [Delimiter] + d).Some?
    ensures ParseMessage(a + [Delimiter] + b + [Delimiter] + d') == Some(Message(Strip(a), d'))
  {
    ParseMessageFields(a, b, d);
    ParseMessageFields(a, b, d');
  }

  /** A payload that is cut short or lengthened is rejected by the length check. */
  lemma ParseRejectsLengthChange(a: string, b: string, d: string, d': string)
    requires Delimiter !in a && Delimiter !in b && |d'| != |d|
    requires ParseMessage(a + [Delimiter] + b + [Delimiter] + d).Some?
    ensures ParseMessage(a + [Delimiter] + b + [Delimiter] + d').None?
  {
    ParseMessageFields(a, b, d);
    ParseMessageFields(a, b, d');
    NatToStringInjective(|d|, |d'|);
  }

  /**
   * A login request for alice: "LOGIN", eleven spaces, "|0012|alice#secret",
   * and back. The strings are parameters so that the solver does not evaluate
   * the codec on the literals.
   */
  lemma LoginFrameExample(cmd: string, data: string, frame: string)
    requires cmd == "LOGIN" && data == "alice#secret"
    requires frame == "LOGIN           |0012|alice#secret"
    ensures BuildMessage(cmd, data) == Some(frame)
    ensures ParseMessage(frame) == Some(Message(cmd, data))
  {
    LoginFrameBuilt(cmd, data, frame);
    NoSpaceEnds(cmd, data);
    RoundTrip(cmd, data);
    StripUnchanged(cmd);
  }

  /** The LOGIN example's fields have no delimiter and no whitespace at their ends. */
  lemma NoSpaceEnds(cmd: string, data: string)
    requires cmd == "LOGIN" && data == "alice#secret"
    ensures Delimiter !in cmd && !IsSpace(cmd[0]) && !EndsInSpace(cmd) && !EndsInSpace(data)
  {
  }

  lemma LoginFrameBuilt(cmd: string, data: string, frame: string)
    requires cmd == "LOGIN" && data == "alice#secret"
    requires frame == "LOGIN           |0012|alice#secret"
    ensures BuildMessage(cmd, data) == Some(frame)
  {
    StrippedFrame(cmd, data);
    LoginFieldsUnstripped(cmd, data);
    TwelveDigits(|data|);
    LoginFrameText(frame);
  }

  /** The example's frame, written piece by piece. */
  lemma LoginFrameText(frame: string)
    requires frame == "LOGIN           |0012|alice#secret"
    ensures "LOGIN           " + [Delimiter] + "0012" + [Delimiter] + "alice#secret" == frame
  {
  }

  /** The length field of twelve characters of data. */
  lemma TwelveDigits(n: nat)
    requires n == 12
    ensures LengthDigits(n) == "0012"
  {
    assert NatToString(n) == "12";
  }

  lemma LoginFieldsUnstripped(cmd: string, data: string)
    requires cmd == "LOGIN" && data == "alice#secret"
    ensures StripLeft(PadCommand(cmd)) == "LOGIN           "
    ensures StripRight(data) == data
  {
    PadCommandLayout(cmd);
    assert PadCommand(cmd) == "LOGIN           ";
    StripRightLength(data);
  }

  /** Empty fields are accepted: "X||" decodes to ("X", ""). */
  lemma EmptyDataExample(cmd: string, frame: string)
    requires cmd == "X" && frame == "X||"
    ensures ParseMessage(frame) == Some(Message(cmd, ""))
  {
    assert Delimiter !in cmd && frame == cmd + [Delimiter] + [] + [Delimiter] + [];
    EmptyFieldsParse(cmd);
    LetterUnstripped(cmd);
  }

  lemma LetterUnstripped(cmd: string)
    requires cmd == "X"
    ensures Strip(cmd) == cmd
  {
    assert !IsSpace(cmd[0]);
    StripUnchanged(cmd);
  }

  /** A frame whose length and data fields are both empty carries empty data. */
  lemma EmptyFieldsParse(cmd: string)
    requires Delimiter !in cmd
    ensures ParseMessage(cmd + [Delimiter] + [] + [Delimiter] + []) == Some(Message(Strip(cmd), []))
  {
    ParseMessageFields(cmd, [], []);
    EmptyLengthField();
  }

  /** An empty length field reads as "0". */
  lemma EmptyLengthField()
    ensures LengthField("") == "0"
  {
    assert Strip("") == "";
  }

  /** Splitting the data on `#` undoes joining a non-empty list of `#`-free fields. */
  lemma SplitJoinData(fields: seq<string>)
    requires |fields| >= 1
    requires forall k :: 0 <= k < |fields| ==> DataDelimiter !in fields[k]
    ensures SplitData(JoinData(fields)) == fields
  {
    SplitJoin(fields, DataDelimiter);
  }

  /** The empty list does not survive: it joins to "" and "" splits into one empty field. */
  lemma SplitJoinDataEmpty()
    ensures JoinData([]) == "" && SplitData(JoinData([])) == [""]
  {
    assert IndexOf("", DataDelimiter).None?;
  }

  /** Command names are upper-case words with underscores. */
  predicate IsCommandName(s: string) {
    forall j :: 0 <= j < |s| ==> 'A' <= s[j] <= 'Z' || s[j] == '_'
  }

  /** A non-empty command name holds neither delimiter and has no surrounding whitespace. */
  lemma CommandNameClean(s: string)
    requires IsCommandName(s) && s != []
    ensures Delimiter !in s && DataDelimiter !in s
    ensures Strip(s) == s
  {
    assert !IsSpace(s[0]) && !IsSpace(s[|s| - 1]);
    StripUnchanged(s);
  }

  /** Every client command is a non-empty command name that fits the command field, so it is
      never refused for length and is read back unchanged. */
  lemma ClientCommandsFit(cmd: string)
    requires cmd in C2SOrders
    ensures 1 <= |cmd| <= CmdFieldLength && IsCommandName(cmd)
  {
  }

  /** Every server command is a non-empty command name that fits the command field. */
  lemma ServerCommandsFit(cmd: string)
    requires cmd in S2COrders
    ensures 1 <= |cmd| <= CmdFieldLength && IsCommandName(cmd)
  {
  }
}
