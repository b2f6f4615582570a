// Replies as the receiver prints them, and what a scan of anything followed by a reply decides.
module GnssReply {
  import opened Words
  import opened GnssAck

  predicate IsBytes(s: string)
  {
    forall i :: 0 <= i < |s| ==> s[i] as int < 0x100
  }

  function HexDigit(d: nat): (c: char)
    requires d < 16
    ensures IsHex(c) && HexVal(c) == d
  {
    "0123456789abcdef"[d]
  }

  lemma {:induction false} XorAllByte(s: string)
    requires IsBytes(s)
    ensures XorAll(s) < 0x100
  {
    if s != "" {
      var a, b := XorAll(s[..|s| - 1]), s[|s| - 1] as int;
      XorAllByte(s[..|s| - 1]);
      ShiftRightXor(a, b, 8);
      ShiftRight8(a);
      ShiftRight8(b);
      ShiftRight8(BitXor(a, b));
    }
  }

  // Characters with bit `j` of the eight set, counted from the highest.
  function Ones(s: string, j: nat): nat
    requires j < 8
  {
    if s == "" then 0
    else Ones(s[..|s| - 1], j) + if LowBits(s[|s| - 1] as int, 8)[j] then 1 else 0
  }

  lemma {:induction false} XorAllParity(s: string, j: nat)
    requires j < 8
    ensures LowBits(XorAll(s), 8)[j] <==> Ones(s, j) % 2 == 1
  {
    hide LowBits, BitXor;
    if s == "" {
      LowBitsZero(8);
    } else {
      XorAllParity(s[..|s| - 1], j);
      LowBitsXor(XorAll(s[..|s| - 1]), s[|s| - 1] as int, 8);
    }
  }

  // Each bit of `x` is the parity of that bit over all characters.
  predicate ParityIs(s: string, x: nat)
  {
    forall j :: 0 <= j < 8 ==> (LowBits(x, 8)[j] <==> Ones(s, j) % 2 == 1)
  }

  lemma ParityIsXor(s: string, x: nat)
    requires x < 0x100 && XorAll(s) < 0x100
    ensures ParityIs(s, x) <==> XorAll(s) == x
  {
    hide LowBits, XorAll, ShiftRight;
    var a, b := LowBits(x, 8), LowBits(XorAll(s), 8);
    forall j | 0 <= j < 8 ensures b[j] <==> Ones(s, j) % 2 == 1 {
      XorAllParity(s, j);
    }
    if ParityIs(s, x) {
      assert a == b;
      ShiftRight8(x);
      ShiftRight8(XorAll(s));
      LowBitsInjective(x, XorAll(s), 8);
    }
  }

  // The checksum of a record: both digits are there, and each bit of their number is the parity of
  // that bit over all characters from the dollar, included, to the star, excluded.
  lemma ChecksumIsParity(buf: string, rec: nat, star: nat)
    requires IsBytes(buf) && rec <= star && star + 2 < |buf| && IsHex(buf[star + 1]) && IsHex(buf[star + 2])
    ensures ValidAt(buf, rec, star)
       <==> ParityIs(buf[rec..star], 16 * HexVal(buf[star + 1]) + HexVal(buf[star + 2]))
  {
    hide XorAll, HexVal, ParityIs;
    XorAllByte(buf[rec..star]);
    ParityIsXor(buf[rec..star], 16 * HexVal(buf[star + 1]) + HexVal(buf[star + 2]));
  }

  lemma HexDigits(d: nat)
    requires d < 16
    ensures "0123456789abcdef"[d] == HexDigit(d) && IsHex("0123456789ABCDEF"[d]) && HexVal("0123456789ABCDEF"[d]) == d
  {
  }

  // A record as the receiver sends it: prefix, text, star and two checksum digits.
  function Print(text: string): string
    requires IsBytes(text)
  {
    XorAllByte(PREFIX + text);
    var x := XorAll(PREFIX + text);
    PREFIX + text + "*" + [HexDigit(x / 16), HexDigit(x % 16)]
  }

  function PrintedRecord(text: string): Record { Record(0, |PREFIX| + |text|) }

  lemma PrintShape(text: string)
    requires IsBytes(text)
    ensures var p := Print(text);
            && |p| == |PREFIX| + |text| + 3
            && p[|PREFIX|..|PREFIX| + |text|] == text
            && p[|PREFIX| + |text|] == '*'
            && Starts(p, 0) && ValidAt(p, 0, |PREFIX| + |text|)
  {
    XorAllByte(PREFIX + text);
    var p := Print(text);
    assert p[..|PREFIX|] == PREFIX;
    assert p[0..|PREFIX| + |text|] == PREFIX + text;
  }

  // Nothing inside the text looks like another record start or an earlier end of this one.
  predicate SelfContained(text: string)
    requires IsBytes(text)
  {
    IsRecord(Print(text), PrintedRecord(text))
  }

  // --------------------------------------------------- behind anything else

  lemma AtShift(any: string, x: string, i: nat, needle: string)
    ensures At(any + x, |any| + i, needle) <==> At(x, i, needle)
  {
    if i + |needle| <= |x| {
      assert (any + x)[|any| + i..|any| + i + |needle|] == x[i..i + |needle|];
    }
  }

  lemma StartsShift(any: string, x: string, i: nat)
    ensures Starts(any + x, |any| + i) <==> Starts(x, i)
  {
    AtShift(any, x, i, PREFIX);
  }

  lemma ValidShift(any: string, x: string, i: nat)
    requires i < |x|
    ensures ValidAt(any + x, |any|, |any| + i) <==> ValidAt(x, 0, i)
  {
    assert (any + x)[|any|..|any| + i] == x[0..i];
  }

  lemma RecordShift(any: string, x: string, star: nat)
    requires IsRecord(x, Record(0, star))
    ensures IsRecord(any + x, Record(|any|, |any| + star))
  {
    hide ValidAt, At;
    var buf := any + x;
    StartsShift(any, x, 0);
    ValidShift(any, x, star);
    forall i: nat | |any| + |PREFIX| <= i < |any| + star ensures !Starts(buf, i) {
      StartsShift(any, x, i - |any|);
    }
    forall i: nat | |any| + |PREFIX| <= i < |any| + star && buf[i] == '*' ensures !ValidAt(buf, |any|, i) {
      ValidShift(any, x, i - |any|);
    }
  }

  // A record that starts in front of a printed one is complete without it.
  lemma EarlierComplete(any: string, x: string, r: Record)
    requires Starts(x, 0) && IsRecord(any + x, r) && r.rec < |any|
    ensures r.star + 2 < |any|
  {
    var buf := any + x;
    StartsShift(any, x, 0);
    StartsDollar(buf, |any|);
    if r.rec + |PREFIX| > |any| {
      PrefixAlone(buf, r.rec, |any|);
    }
    assert buf[|any|] == '$';
    assert IsHex(buf[r.star + 1]) && IsHex(buf[r.star + 2]) && buf[r.star] == '*';
  }

  // What is found in a buffer that ends in a printed record is complete in front of it, or it.
  lemma EarlierOrPrinted(any: string, text: string, q: Record)
    requires IsBytes(text) && SelfContained(text) && IsRecord(any + Print(text), q)
    ensures IsRecord(any, q) || q == Record(|any|, |any| + |PREFIX| + |text|)
  {
    hide IsRecord;
    var x := Print(text);
    var buf := any + x;
    PrintShape(text);
    RecordShift(any, x, |PREFIX| + |text|);
    if q.rec < |any| {
      EarlierComplete(any, x, q);
      RecordExtend(any, x, q);
    } else {
      SameStart(buf, Record(|any|, |any| + |PREFIX| + |text|), q);
    }
  }

  // No record starts in the last bytes behind another.
  lemma SameStart(buf: string, r: Record, q: Record)
    requires IsRecord(buf, r) && IsRecord(buf, q) && r.rec <= q.rec && r.star + 3 == |buf|
    ensures q == r
  {
    hide ValidAt, StarOf;
    NoneBetween(buf, r.rec, r.star, q);
    StarOfExact(buf, r.rec);
    assert Record(r.rec, r.star) == r;
  }

  lemma RecordNonEmpty(buf: string, r: Record)
    requires IsRecord(buf, r)
    ensures r.rec < r.star
  {
  }

  lemma OrderedAppend(a: seq<Record>, b: seq<Record>, r: Record)
    requires Ordered(b) && a <= b && r in b && r !in a
    requires forall q :: q in b ==> q.rec < q.star && (q == r || q in a)
    ensures b == a + [r]
  {
    assert |a| < |b|;
    forall i | |a| <= i < |b| ensures b[i] == r {
      assert forall k :: 0 <= k < |a| ==> b[k].star < b[i].rec;
    }
    assert |a| + 1 < |b| ==> b[|a|].star < b[|a| + 1].rec;
  }

  // Behind any bytes at all, the scanner finds what it finds in them, and then the printed one.
  lemma RecordsBehind(any: string, text: string)
    requires IsBytes(text) && SelfContained(text)
    ensures Records(any + Print(text), 0)
         == Records(any, 0) + [Record(|any|, |any| + |PREFIX| + |text|)]
  {
    hide Records, IsRecord;
    var x := Print(text);
    var buf := any + x;
    var r := Record(|any|, |any| + |PREFIX| + |text|);
    var a, b := Records(any, 0), Records(buf, 0);
    RecordShift(any, x, |PREFIX| + |text|);
    RecordsExact(any, 0);
    RecordsExact(buf, 0);
    RecordsExtend(any, x, 0);
    forall q | q in b ensures q.rec < q.star && (q == r || q in a) {
      EarlierOrPrinted(any, text, q);
      RecordNonEmpty(buf, q);
    }
    if r in a {
      CompleteInBuffer(any, r);
    }
    OrderedAppend(a, b, r);
  }

  // A complete record decides for its command whatever was received before it: no truncated
  // record, lost delimiter or binary noise in front of it can swallow it.
  lemma RecordDecides(any: string, text: string, cmd: string)
    requires IsBytes(text) && SelfContained(text)
    ensures VerdictOf(any + Print(text), cmd)
         == if Judge(text, cmd) != None then Judge(text, cmd) else VerdictOf(any, cmd)
  {
    hide Judge, Records, IsRecord;
    var x := Print(text);
    var r := Record(|any|, |any| + |PREFIX| + |text|);
    RecordsBehind(any, text);
    RecordsInBuffer(any + x);
    RecordsInBuffer(any);
    PrintShape(text);
    LastVerdictSplit(any + x, Records(any, 0), [r], cmd);
    LastVerdictExtend(any, x, Records(any, 0), cmd);
    assert TextOf(any + x, r) == x[|PREFIX|..|PREFIX| + |text|];
    assert [r][..0] == [];
  }

  // A complete record about another command changes nothing.
  lemma OtherCommandsIgnored(any: string, text: string, cmd: string)
    requires IsBytes(text) && SelfContained(text) && !At(text, 0, NO_ECHO)
    requires var resp := Find(text, 0, RESPONSE); resp < 0 || text[..resp] != cmd
    ensures VerdictOf(any + Print(text), cmd) == VerdictOf(any, cmd)
  {
    RecordDecides(any, text, cmd);
  }

  // ------------------------------------------------------- replies to a command

  const OK_VERDICT: string := " OK"
  const FAIL_VERDICT: string := " " + PARSING_FAIL

  // "<command>,response:<verdict>", the form the device sends for both outcomes.
  function Reply(cmd: string, verdict: string): (t: string)
    ensures |t| == |cmd| + |RESPONSE| + |verdict|
    ensures t[..|cmd|] == cmd && t[|cmd| + |RESPONSE|..] == verdict && At(t, |cmd|, RESPONSE)
    ensures IsBytes(cmd) && IsBytes(verdict) ==> IsBytes(t)
  {
    assert (cmd + RESPONSE + verdict)[|cmd|..|cmd| + |RESPONSE|] == RESPONSE;
    cmd + RESPONSE + verdict
  }

  // The echo is read back: the reply is judged by its verdict text alone.
  predicate EchoReads(cmd: string)
  {
    !At(cmd, 0, NO_ECHO) && Find(cmd, 0, RESPONSE) < 0
  }

  lemma AtChar(hay: string, i: nat, needle: string, k: nat)
    requires k < |needle|
    ensures At(hay, i, needle) ==> i + k < |hay| && hay[i + k] == needle[k]
  {
    assert At(hay, i, needle) ==> hay[i + k] == hay[i..i + |needle|][k];
  }

  lemma CommaBehind(cmd: string, verdict: string)
    ensures Reply(cmd, verdict)[|cmd|] == ','
  {
    AtChar(Reply(cmd, verdict), |cmd|, RESPONSE, 0);
  }

  lemma EchoCut(cmd: string, verdict: string, i: nat)
    requires i < |cmd|
    ensures At(Reply(cmd, verdict), i, RESPONSE) <==> At(cmd, i, RESPONSE)
  {
    var t := Reply(cmd, verdict);
    CommaBehind(cmd, verdict);
    if i + |RESPONSE| <= |cmd| {
      assert t[i..i + |RESPONSE|] == cmd[i..i + |RESPONSE|];
    } else {
      AtChar(t, i, RESPONSE, |cmd| - i);
    }
  }

  lemma NoEchoCut(cmd: string, verdict: string)
    ensures At(Reply(cmd, verdict), 0, NO_ECHO) <==> At(cmd, 0, NO_ECHO)
  {
    var t := Reply(cmd, verdict);
    CommaBehind(cmd, verdict);
    if |NO_ECHO| <= |cmd| {
      assert t[0..|NO_ECHO|] == cmd[0..|NO_ECHO|];
    } else {
      AtChar(t, 0, NO_ECHO, |cmd|);
    }
  }

  lemma EchoFound(cmd: string, verdict: string)
    ensures Find(cmd, 0, RESPONSE) < 0 ==> Find(Reply(cmd, verdict), 0, RESPONSE) == |cmd|
    ensures Find(cmd, 0, RESPONSE) >= 0 ==> Find(Reply(cmd, verdict), 0, RESPONSE) == Find(cmd, 0, RESPONSE) < |cmd|
  {
    hide At;
    var t := Reply(cmd, verdict);
    var f := Find(cmd, 0, RESPONSE);
    forall i: nat | i < |cmd| ensures At(t, i, RESPONSE) <==> At(cmd, i, RESPONSE) {
      EchoCut(cmd, verdict, i);
    }
    if f >= 0 {
      AtInside(cmd, f, RESPONSE);
    }
    FindIs(t, 0, RESPONSE, if f >= 0 then f else |cmd|);
  }

  lemma AtInside(hay: string, i: nat, needle: string)
    requires At(hay, i, needle) && needle != ""
    ensures i < |hay|
  {
  }

  lemma ReplyJudged(cmd: string, verdict: string)
    ensures EchoReads(cmd) ==> Judge(Reply(cmd, verdict), cmd) == JudgeVerdict(Reply(cmd, verdict), |cmd| + |RESPONSE|)
    ensures !EchoReads(cmd) ==> Judge(Reply(cmd, verdict), cmd) != Ok
  {
    hide Find, At, JudgeVerdict;
    EchoFound(cmd, verdict);
    NoEchoCut(cmd, verdict);
  }

  // The command as it stands in the reply: behind the prefix and in front of a comma.
  function Echo(cmd: string): string { PREFIX + cmd + "," }

  // No record start and no end with the right checksum hides in the echoed command. The comma
  // counts: it completes a "$command" at the end of the command.
  predicate Unbroken(cmd: string)
  {
    var e := Echo(cmd);
    && Find(e, |PREFIX|, PREFIX) < 0
    && forall k :: |PREFIX| <= k < |e| && e[k] == '*' ==> !ValidAt(e, 0, k)
  }

  // A verdict text that cannot break the reply.
  predicate PlainVerdict(verdict: string)
  {
    '*' !in verdict && Find(verdict, 0, PREFIX) < 0
  }

  lemma ReplyPrinted(cmd: string, verdict: string)
    requires IsBytes(cmd) && IsBytes(verdict)
    ensures var p, t := Print(Reply(cmd, verdict)), Reply(cmd, verdict);
            && |p| == |PREFIX| + |t| + 3
            && p[..|Echo(cmd)|] == Echo(cmd)
            && p[|Echo(cmd)|..|PREFIX| + |t|] == RESPONSE[1..] + verdict
            && p[|PREFIX| + |t|] == '*'
  {
    hide XorAll, ValidAt;
    var t := Reply(cmd, verdict);
    var p := Print(t);
    PrintShape(t);
    var rest := RESPONSE[1..] + verdict;
    assert t == cmd + "," + rest;
    assert p[..|PREFIX|] == PREFIX by { PrintFront(t); }
    InPieces(p, cmd + ",", rest);
  }

  lemma PrintFront(text: string)
    requires IsBytes(text)
    ensures Print(text)[..|PREFIX|] == PREFIX
  {
  }

  lemma InPieces(p: string, x: string, y: string)
    requires |PREFIX| + |x| + |y| <= |p| && p[..|PREFIX|] == PREFIX
    requires p[|PREFIX|..|PREFIX| + |x + y|] == x + y
    ensures p[..|PREFIX| + |x|] == PREFIX + x
    ensures p[|PREFIX| + |x|..|PREFIX| + |x| + |y|] == y
  {
    SliceOfSlice(p, |PREFIX|, |PREFIX| + |x + y|, |x|, |x + y|);
    SliceOfSlice(p, |PREFIX|, |PREFIX| + |x + y|, 0, |x|);
    assert p[..|PREFIX| + |x|] == p[..|PREFIX|] + p[|PREFIX|..|PREFIX| + |x|];
  }

  lemma StartInReply(cmd: string, verdict: string, i: nat)
    requires IsBytes(cmd) && IsBytes(verdict) && PlainVerdict(verdict)
    requires |PREFIX| <= i < |PREFIX| + |Reply(cmd, verdict)|
    ensures Starts(Print(Reply(cmd, verdict)), i) <==> i < |Echo(cmd)| && Starts(Echo(cmd), i)
  {
    hide Reply, Print;
    var p, e := Print(Reply(cmd, verdict)), Echo(cmd);
    ReplyPrinted(cmd, verdict);
    if i + |PREFIX| <= |e| {
      SliceOfSlice(p, 0, |e|, i, i + |PREFIX|);
      assert p[0..|e|] == p[..|e|];
    } else if i < |e| {
      assert p[|e| - 1] == p[..|e|][|e| - 1] == ',';
      AtChar(p, i, PREFIX, |e| - 1 - i);
    } else {
      StartInVerdict(p, |e|, |PREFIX| + |Reply(cmd, verdict)|, verdict, i);
    }
  }

  lemma StartInVerdict(p: string, from: nat, end: nat, verdict: string, i: nat)
    requires from <= i < end < |p| && p[from..end] == RESPONSE[1..] + verdict && p[end] == '*'
    requires Find(verdict, 0, PREFIX) < 0
    ensures !Starts(p, i)
  {
    hide Find;
    var v := p[from..end];
    assert v[i - from] == p[i];
    if i < from + |RESPONSE| - 1 {
      AtChar(p, i, PREFIX, 0);
    } else if i + |PREFIX| > end {
      NoStarInStart(p, i, end);
    } else {
      var k: nat := i - from - (|RESPONSE| - 1);
      SliceOfSlice(p, from, end, i - from, i - from + |PREFIX|);
      assert verdict[k..k + |PREFIX|] == v[i - from..i - from + |PREFIX|];
      assert !At(verdict, k, PREFIX);
    }
  }

  lemma EndInReply(cmd: string, verdict: string, i: nat)
    requires IsBytes(cmd) && IsBytes(verdict) && PlainVerdict(verdict)
    requires |PREFIX| <= i < |PREFIX| + |Reply(cmd, verdict)|
    ensures var p, e := Print(Reply(cmd, verdict)), Echo(cmd);
            (p[i] == '*' && ValidAt(p, 0, i)) <==> i < |e| && e[i] == '*' && ValidAt(e, 0, i)
  {
    hide Reply, Print, Find;
    var p, e := Print(Reply(cmd, verdict)), Echo(cmd);
    ReplyPrinted(cmd, verdict);
    var end := |PREFIX| + |Reply(cmd, verdict)|;
    if i >= |e| {
      assert p[|e|..end][i - |e|] == p[i];
      assert (RESPONSE[1..] + verdict)[i - |e|] != '*';
    } else {
      assert forall k :: 0 <= k < |e| ==> p[k] == p[..|e|][k] == e[k];
      assert p[0..i] == e[0..i];
    }
  }

  // A reply is one record exactly if nothing in the echoed command breaks it.
  lemma ReplySelfContained(cmd: string, verdict: string)
    requires IsBytes(cmd) && IsBytes(verdict) && PlainVerdict(verdict)
    ensures SelfContained(Reply(cmd, verdict)) <==> Unbroken(cmd)
  {
    hide ValidAt, Find, At, Print, Reply, PlainVerdict, Starts;
    var t := Reply(cmd, verdict);
    var p, e := Print(t), Echo(cmd);
    PrintShape(t);
    ReplyPrinted(cmd, verdict);
    forall i: nat | |PREFIX| <= i < |PREFIX| + |t|
      ensures Starts(p, i) <==> i < |e| && Starts(e, i)
    {
      StartInReply(cmd, verdict, i);
    }
    forall i: nat | |PREFIX| <= i < |PREFIX| + |t|
      ensures (p[i] == '*' && ValidAt(p, 0, i)) <==> i < |e| && e[i] == '*' && ValidAt(e, 0, i)
    {
      EndInReply(cmd, verdict, i);
    }
    NoStartFind(e, |PREFIX|);
  }

  lemma NoStartFind(e: string, from: nat)
    ensures Find(e, from, PREFIX) < 0 <==> forall i: nat :: from <= i < |e| ==> !Starts(e, i)
  {
    var f := Find(e, from, PREFIX);
    if f >= 0 {
      assert Starts(e, f) && f < |e|;
    } else {
      assert forall i: nat :: from <= i < |e| ==> !At(e, i, PREFIX);
    }
  }

  // ------------------------------------------------------------ verdict texts

  lemma {:induction false} TrimStops(t: string, v: nat, end: nat, k: nat)
    requires v <= k < end <= |t| && t[k] != ' ' && t[k] != '\r'
    ensures TrimEnd(t, v, end) > k
  {
    if t[end - 1] == ' ' || t[end - 1] == '\r' {
      TrimStops(t, v, end - 1, k);
    }
  }

  lemma OkRead(cmd: string)
    ensures JudgeVerdict(Reply(cmd, OK_VERDICT), |cmd| + |RESPONSE|) == Ok
  {
    var t, v := Reply(cmd, OK_VERDICT), |cmd| + |RESPONSE|;
    assert t[v..][0] == t[v] == ' ' && t[v..][1] == t[v + 1] == 'O' && t[v..][2] == t[v + 2] == 'K';
    assert SkipSpaces(t, v) == v + 1;
    assert t[v + 1..] == "OK";
    assert t[..|t|] == t && t[v + 1..|t|] == "OK";
  }

  lemma RejectAt(t: string, from: nat)
    requires At(t, from, " " + PARSING_FAIL)
    ensures JudgeVerdict(t, from) == Rejected
  {
    AtChar(t, from, " " + PARSING_FAIL, 0);
    AtChar(t, from, " " + PARSING_FAIL, 1);
    AtChar(t, from, " " + PARSING_FAIL, |PARSING_FAIL|);
    assert SkipSpaces(t, from) == from + 1;
    TrimStops(t, from + 1, |t|, from + |PARSING_FAIL|);
    FailAt(t, from, TrimEnd(t, from + 1, |t|));
  }

  lemma FailAt(t: string, from: nat, end: nat)
    requires At(t, from, " " + PARSING_FAIL) && from + 1 + |PARSING_FAIL| <= end <= |t|
    ensures At(t[..end], from + 1, PARSING_FAIL)
  {
    var n := |PARSING_FAIL|;
    assert t[..end][from + 1..from + 1 + n] == t[from..from + 1 + n][1..] == (" " + PARSING_FAIL)[1..];
  }

  // The device's refusal: any text behind PARSING FAIL.
  lemma RejectRead(cmd: string, tail: string)
    ensures JudgeVerdict(Reply(cmd, FAIL_VERDICT + tail), |cmd| + |RESPONSE|) == Rejected
  {
    hide JudgeVerdict;
    var t, v := Reply(cmd, FAIL_VERDICT + tail), |cmd| + |RESPONSE|;
    assert t[v..v + 1 + |PARSING_FAIL|] == t[v..][..1 + |PARSING_FAIL|] == " " + PARSING_FAIL;
    RejectAt(t, v);
  }

  // ------------------------------------------------------------ what decides

  // A text judged OK for a command is long enough to hold the command and the verdict.
  lemma OkIsLong(t: string, cmd: string)
    requires Judge(t, cmd) == Ok
    ensures |t| >= |cmd| + |RESPONSE| + 2
  {
  }

  lemma {:induction false} VerdictWitness(buf: string, rs: seq<Record>, cmd: string) returns (r: Record)
    requires InBuffer(buf, rs) && LastVerdict(buf, rs, cmd) != None
    ensures r in rs && r.rec + |PREFIX| <= r.star <= |buf|
    ensures Judge(TextOf(buf, r), cmd) == LastVerdict(buf, rs, cmd)
  {
    hide Judge;
    r := rs[|rs| - 1];
    if Judge(TextOf(buf, r), cmd) == None {
      r := VerdictWitness(buf, rs[..|rs| - 1], cmd);
    }
  }

  // So is one judged a refusal.
  lemma RejectIsLong(t: string, cmd: string)
    requires Judge(t, cmd) == Rejected
    ensures |t| >= |cmd| + |RESPONSE| + |PARSING_FAIL|
  {
    hide Find;
    if At(t, 0, NO_ECHO) {
      NoEchoIsLong(t, cmd);
    } else {
      var resp := Find(t, 0, RESPONSE);
      assert At(t, resp, RESPONSE);
    }
  }

  lemma NoEchoIsLong(t: string, cmd: string)
    requires At(t, 0, NO_ECHO) && Judge(t, cmd) == Rejected
    ensures |t| >= |NO_ECHO| + |NO_FUNC| + |cmd|
  {
    hide Find;
    NoEchoJudged(t, cmd);
    var func := Find(t, 0, NO_FUNC);
    assert At(t, func, NO_FUNC);
    if func < |NO_ECHO| {
      AtChar(t, func, NO_FUNC, 0);
      AtChar(t, 0, NO_ECHO, func);
    }
  }

  // A reply judged by its own verdict, with nothing in front of it, is one record, and is judged in
  // the echoed form. Its length leaves room for no other record that could have been.
  lemma DecidingNeedsRecord(cmd: string, verdict: string)
    requires verdict == OK_VERDICT || verdict == FAIL_VERDICT
    requires IsBytes(cmd) && IsBytes(verdict)
    requires VerdictOf(Print(Reply(cmd, verdict)), cmd) == if verdict == OK_VERDICT then Ok else Rejected
    ensures SelfContained(Reply(cmd, verdict)) && EchoReads(cmd)
  {
    hide Judge, Records, IsRecord, Reply, Print, EchoReads;
    var t := Reply(cmd, verdict);
    var p := Print(t);
    RecordsInBuffer(p);
    RecordsExact(p, 0);
    var r := VerdictWitness(p, Records(p, 0), cmd);
    if verdict == OK_VERDICT {
      OkIsLong(TextOf(p, r), cmd);
    } else {
      RejectIsLong(TextOf(p, r), cmd);
    }
    PrintShape(t);
    LastOfReply(cmd, verdict);
    LongIsWhole(p, |PREFIX| + |t|, r, t);
    assert TextOf(p, r) == t;
    ReplyJudged(cmd, verdict);
    NotRefused(cmd);
  }

  lemma LastOfReply(cmd: string, verdict: string)
    requires verdict != "" && verdict[|verdict| - 1] != '*'
    ensures var t := Reply(cmd, verdict); t[|t| - 1] != '*'
  {
    var t := Reply(cmd, verdict);
    assert t[|cmd| + |RESPONSE|..][|verdict| - 1] == t[|t| - 1];
  }

  // A short refusal is no refusal of a command that does not read back.
  lemma NotRefused(cmd: string)
    ensures !EchoReads(cmd) ==> Judge(Reply(cmd, FAIL_VERDICT), cmd) != Rejected
  {
    hide Find, At, JudgeVerdict;
    var t := Reply(cmd, FAIL_VERDICT);
    EchoFound(cmd, FAIL_VERDICT);
    NoEchoCut(cmd, FAIL_VERDICT);
    if At(t, 0, NO_ECHO) && Judge(t, cmd) == Rejected {
      NoEchoIsLong(t, cmd);
    }
  }

  lemma LongIsWhole(p: string, end: nat, r: Record, t: string)
    requires Starts(p, 0) && end == |PREFIX| + |t| && |p| == end + 3 && p[|PREFIX|..end] == t
    requires IsRecord(p, r) && r.star - r.rec >= end - 1 && |t| > 0 && t[|t| - 1] != '*'
    ensures r == Record(0, end)
  {
    hide ValidAt, Starts;
    CompleteInBuffer(p, r);
    assert p[end - 1] == t[|t| - 1];
    PrefixAlone(p, 0, 1);
  }

  // An OK reply decides for its command whatever came before it, exactly if the command reads
  // back from its echo and nothing in the echo breaks the record.
  lemma OkReplyDecides(cmd: string)
    requires IsBytes(cmd)
    ensures (forall any :: VerdictOf(any + Print(Reply(cmd, OK_VERDICT)), cmd) == Ok)
       <==> (EchoReads(cmd) && Unbroken(cmd))
  {
    hide Judge, Records, IsRecord, Reply, Print, EchoReads, Unbroken, VerdictOf;
    var t := Reply(cmd, OK_VERDICT);
    OkPlain();
    ReplySelfContained(cmd, OK_VERDICT);
    ReplyJudged(cmd, OK_VERDICT);
    OkRead(cmd);
    if EchoReads(cmd) && Unbroken(cmd) {
      forall any ensures VerdictOf(any + Print(t), cmd) == Ok {
        RecordDecides(any, t, cmd);
      }
    } else if VerdictOf("" + Print(t), cmd) == Ok {
      assert "" + Print(t) == Print(t);
      DecidingNeedsRecord(cmd, OK_VERDICT);
    }
  }

  // Whatever verdict text a complete reply carries, behind any bytes: it approves exactly if it says
  // OK and nothing else, refuses exactly if it starts with PARSING FAIL, and otherwise leaves what
  // was known before.
  lemma ReplyVerdictExact(any: string, cmd: string, verdict: string)
    requires IsBytes(cmd) && IsBytes(verdict) && PlainVerdict(verdict) && EchoReads(cmd) && Unbroken(cmd)
    ensures VerdictOf(any + Print(Reply(cmd, verdict)), cmd)
         == if SaysOk(verdict) then Ok else if SaysFail(verdict) then Rejected else VerdictOf(any, cmd)
  {
    hide Judge, JudgeVerdict, Records, IsRecord, Reply, Print, EchoReads, Unbroken, VerdictOf, PlainVerdict;
    hide SaysOk, SaysFail;
    ReplySelfContained(cmd, verdict);
    ReplyJudged(cmd, verdict);
    EchoedVerdictExact(Reply(cmd, verdict), |cmd| + |RESPONSE|);
    RecordDecides(any, Reply(cmd, verdict), cmd);
  }

  // Three of them: a carriage return behind OK is no matter, NOT OK and silence are no answer.
  lemma VerdictTexts()
    ensures SaysOk(" OK") && SaysOk(" OK\r") && SaysOk("OK")
    ensures !SaysOk(" NOT OK") && !SaysFail(" NOT OK") && !SaysOk("") && !SaysFail("")
  {
    assert OkAt(" OK", 1) && OkAt(" OK\r", 1) && OkAt("OK", 0);
    var w := " NOT OK";
    assert w[1] == 'N';
    VerdictAtK(w, 1);
  }

  lemma OkPlain()
    ensures PlainVerdict(OK_VERDICT) && IsBytes(OK_VERDICT)
  {
  }

  // A tail that leaves a refusal one record.
  predicate PlainTail(tail: string) { IsBytes(tail) && PlainVerdict(FAIL_VERDICT + tail) }

  // A refusal decides in the same way, whatever came before it and with any plain text behind
  // PARSING FAIL.
  lemma RejectReplyDecides(cmd: string)
    requires IsBytes(cmd)
    ensures (forall any, tail :: PlainTail(tail) ==> VerdictOf(any + Print(Refusal(cmd, tail)), cmd) == Rejected)
       <==> (EchoReads(cmd) && Unbroken(cmd))
  {
    hide Judge, Records, IsRecord, Reply, Print, EchoReads, Unbroken, VerdictOf, PlainVerdict;
    PlainFail();
    if EchoReads(cmd) && Unbroken(cmd) {
      forall any, tail | PlainTail(tail) ensures VerdictOf(any + Print(Refusal(cmd, tail)), cmd) == Rejected {
        ReplySelfContained(cmd, FAIL_VERDICT + tail);
        ReplyJudged(cmd, FAIL_VERDICT + tail);
        RejectRead(cmd, tail);
        RecordDecides(any, Refusal(cmd, tail), cmd);
      }
    } else {
      ReplySelfContained(cmd, FAIL_VERDICT);
      assert FAIL_VERDICT + "" == FAIL_VERDICT;
      assert "" + Print(Refusal(cmd, "")) == Print(Reply(cmd, FAIL_VERDICT));
      if VerdictOf("" + Print(Refusal(cmd, "")), cmd) == Rejected {
        DecidingNeedsRecord(cmd, FAIL_VERDICT);
      }
      assert PlainTail("");
    }
  }

  function Refusal(cmd: string, tail: string): (t: string)
    ensures IsBytes(cmd) && IsBytes(tail) ==> IsBytes(t)
  {
    Reply(cmd, FAIL_VERDICT + tail)
  }

  lemma PlainFail()
    ensures PlainVerdict(FAIL_VERDICT) && IsBytes(FAIL_VERDICT)
  {
    hide IsBytes;
    FailIsBytes();
    forall i: nat ensures !At(FAIL_VERDICT, i, PREFIX) {
      AtChar(FAIL_VERDICT, i, PREFIX, 0);
    }
  }

  lemma FailIsBytes()
    ensures IsBytes(FAIL_VERDICT)
  {
  }

  // The documented refusal without an echo: behind the first NO MATCHING FUNC there are spaces and
  // then the command, to the end.
  predicate EndsInCommand(t: string, cmd: string)
  {
    var func := Find(t, 0, NO_FUNC);
    && func >= 0 && func + |NO_FUNC| + |cmd| <= |t|
    && t[|t| - |cmd|..] == cmd && (cmd != "" ==> cmd[0] != ' ')
    && forall k :: func + |NO_FUNC| <= k < |t| - |cmd| ==> t[k] == ' '
  }

  // Behind the spaces from `i` on stands the command, if and only if the text ends in spaces and it.
  lemma SpacesThenCommand(t: string, i: nat, cmd: string)
    requires i <= |t|
    ensures t[SkipSpaces(t, i)..] == cmd
       <==> (i + |cmd| <= |t| && t[|t| - |cmd|..] == cmd && (cmd != "" ==> cmd[0] != ' ')
             && forall k :: i <= k < |t| - |cmd| ==> t[k] == ' ')
  {
    hide SkipSpaces;
    SkipSpacesExact(t, i);
    var r, e := SkipSpaces(t, i), |t| - |cmd|;
    if t[r..] == cmd {
      assert r == e && (cmd != "" ==> t[r..][0] == t[r]);
    } else if i <= e && t[e..] == cmd {
      assert r != e && (cmd != "" ==> t[e..][0] == t[e]);
      assert r < e ==> t[r] != ' ';
    }
  }

  lemma NoEchoJudged(t: string, cmd: string)
    requires At(t, 0, NO_ECHO)
    ensures Judge(t, cmd) == if EndsInCommand(t, cmd) then Rejected else None
  {
    hide Find, SkipSpaces;
    var func := Find(t, 0, NO_FUNC);
    if func >= 0 {
      assert At(t, func, NO_FUNC);
      SpacesThenCommand(t, func + |NO_FUNC|, cmd);
    }
  }

  lemma NoEchoRejectDecides(any: string, t: string, cmd: string)
    requires At(t, 0, NO_ECHO) && EndsInCommand(t, cmd)
    requires IsBytes(t) && '*' !in t && Find(t, 0, PREFIX) < 0
    ensures VerdictOf(any + Print(t), cmd) == Rejected
  {
    hide Find, Judge, Print, EndsInCommand, VerdictOf, At;
    NoEchoJudged(t, cmd);
    PlainTextSelfContained(t);
    RecordDecides(any, t, cmd);
  }

  lemma PlainTextSelfContained(t: string)
    requires IsBytes(t) && '*' !in t && Find(t, 0, PREFIX) < 0
    ensures SelfContained(t)
  {
    hide ValidAt, Find;
    var p := Print(t);
    PrintShape(t);
    var end := |PREFIX| + |t|;
    assert forall i :: |PREFIX| <= i < end ==> p[i] == p[|PREFIX|..end][i - |PREFIX|];
    forall i: nat | |PREFIX| <= i < end ensures !Starts(p, i) {
      TextHasNoStart(p, end, t, i);
    }
  }

  lemma TextHasNoStart(p: string, end: nat, t: string, i: nat)
    requires end < |p| && end == |PREFIX| + |t| && p[|PREFIX|..end] == t && p[end] == '*'
    requires |PREFIX| <= i < end && Find(t, 0, PREFIX) < 0
    ensures !Starts(p, i)
  {
    hide Find;
    if i + |PREFIX| > end {
      NoStarInStart(p, i, end);
    } else {
      SliceOfSlice(p, |PREFIX|, end, i - |PREFIX|, i);
      assert !At(t, i - |PREFIX|, PREFIX);
    }
  }

  // Commands without stars or dollars, as all the configuration commands are, never break.
  lemma PlainCommandsUnbroken(cmd: string)
    requires '*' !in cmd && '$' !in cmd
    ensures Unbroken(cmd)
  {
    hide ValidAt, Find;
    var e := Echo(cmd);
    forall i: nat | |PREFIX| <= i < |e| ensures !Starts(e, i) && e[i] != '*' {
      AtChar(e, i, PREFIX, 0);
      assert e[i] == (cmd + ",")[i - |PREFIX|];
    }
    NoStartFind(e, |PREFIX|);
  }

  // The condition is needed: this command holds no "$command,", no star and no ",response:", and
  // its OK reply is still lost, because the comma behind the echo completes a record start.
  lemma StraddlingEchoIsLost(cmd: string)
    requires cmd == "x$command"
    ensures EchoReads(cmd) && !Unbroken(cmd) && IsBytes(cmd)
    ensures !(forall any :: VerdictOf(any + Print(Reply(cmd, OK_VERDICT)), cmd) == Ok)
  {
    hide Judge, Records, IsRecord, Reply, Print, VerdictOf, EchoReads, Unbroken, IsBytes, Find, At;
    StraddlingReads(cmd);
    StraddlingIsBytes(cmd);
    EchoBreaks(cmd);
    OkReplyDecides(cmd);
  }

  lemma StraddlingReads(cmd: string)
    requires cmd == "x$command"
    ensures EchoReads(cmd)
  {
    hide At;
    AtChar(cmd, 0, NO_ECHO, 0);
    forall i: nat ensures !At(cmd, i, RESPONSE) {
      AtChar(cmd, i, RESPONSE, 0);
    }
  }

  lemma StraddlingIsBytes(cmd: string)
    requires cmd == "x$command"
    ensures IsBytes(cmd)
  {
  }

  lemma EchoBreaks(cmd: string)
    requires cmd == "x$command"
    ensures !Unbroken(cmd)
  {
    hide Find;
    var e := Echo(cmd);
    assert e[10..19] == PREFIX;
    assert Starts(e, 10);
    NoStartFind(e, |PREFIX|);
  }
}
