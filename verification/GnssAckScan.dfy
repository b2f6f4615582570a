// The scanner as it runs: searches over a read-only capture buffer.
module GnssAckScan {
  import opened Words
  import opened GnssAck

  // Offset of the first occurrence inside [from, n), or -1.
  method FindAt(hay: string, n: nat, from: nat, needle: string) returns (r: int)
    requires n <= |hay| && needle != ""
    ensures r == Find(hay[..n], from, needle)
  {
    ghost var text := hay[..n];
    if n < |needle| {
      return -1;
    }
    var i := from;
    while i + |needle| <= n
      invariant from <= i
      invariant Find(text, from, needle) == Find(text, i, needle)
    {
      assert text[i..i + |needle|] == hay[i..i + |needle|];
      if hay[i] == needle[0] && hay[i..i + |needle|] == needle {
        return i;
      }
      i := i + 1;
    }
    return -1;
  }

  method RecordValidAt(buf: string, rec: nat, star: nat) returns (ok: bool)
    requires rec <= star < |buf|
    ensures ok == ValidAt(buf, rec, star)
  {
    if star + 2 >= |buf| {
      return false;
    }
    if !IsHex(buf[star + 1]) || !IsHex(buf[star + 2]) {
      return false;
    }
    var want := 16 * HexVal(buf[star + 1]) + HexVal(buf[star + 2]);
    var got := 0;
    var i := rec;
    while i < star
      invariant rec <= i <= star
      invariant got == XorAll(buf[rec..i])
    {
      assert buf[rec..i + 1][..i - rec] == buf[rec..i];
      got := BitXor(got, buf[i] as int);
      i := i + 1;
    }
    return got == want;
  }

  // The search for the star that completes the record at `rec`.
  method FindStar(buf: string, rec: nat, next: int) returns (star: int)
    requires rec + |PREFIX| <= |buf|
    ensures star == FirstStar(buf, rec, next, rec + |PREFIX|)
  {
    hide ValidAt, Find;
    assert buf[..|buf|] == buf;
    ghost var from: nat := rec + |PREFIX|;
    var s := FindAt(buf, |buf|, rec + |PREFIX|, "*");
    while s >= 0
      invariant rec <= from <= |buf| && s == Find(buf, from, "*")
      invariant FirstStar(buf, rec, next, rec + |PREFIX|) == FirstStar(buf, rec, next, from)
      decreases |buf| - from
    {
      if next >= 0 && s > next {
        return -1;
      }
      var valid := RecordValidAt(buf, rec, s);
      if valid {
        return s;
      }
      from := s + 1;
      s := FindAt(buf, |buf|, s + 1, "*");
    }
    return -1;
  }

  // ------------------------------------------------------- judging in place

  lemma FindSlice(buf: string, body: nat, end: nat, needle: string)
    requires body <= end <= |buf|
    ensures var f := Find(buf[body..end], 0, needle);
            Find(buf[..end], body, needle) == if f < 0 then -1 else body + f
  {
    hide At;
    var f := Find(buf[body..end], 0, needle);
    forall i: nat | body <= i ensures At(buf[..end], i, needle) <==> At(buf[body..end], i - body, needle) {
      AtSlice(buf, body, end, i, needle);
    }
    FindIs(buf[..end], body, needle, if f < 0 then -1 else body + f);
  }

  lemma AtSlice(buf: string, body: nat, end: nat, i: nat, needle: string)
    requires body <= i && body <= end <= |buf|
    ensures At(buf[..end], i, needle) <==> At(buf[body..end], i - body, needle)
  {
    if i + |needle| <= end {
      assert buf[..end][i..i + |needle|] == buf[body..end][i - body..i - body + |needle|];
    }
  }

  method SpacesEnd(buf: string, body: nat, from: nat, end: nat) returns (v: nat)
    requires body <= from <= end <= |buf|
    ensures v == body + SkipSpaces(buf[body..end], from - body)
  {
    ghost var text := buf[body..end];
    v := from;
    while v < end && buf[v] == ' '
      invariant from <= v <= end
      invariant SkipSpaces(text, from - body) == SkipSpaces(text, v - body)
    {
      assert text[v - body] == buf[v];
      v := v + 1;
    }
    assert v < end ==> text[v - body] == buf[v];
  }

  method JudgeNoEcho(buf: string, body: nat, end: nat, cmd: string) returns (rejected: bool)
    requires body <= end <= |buf| && At(buf[body..end], 0, NO_ECHO)
    ensures Judge(buf[body..end], cmd) == if rejected then Rejected else None
  {
    ghost var text := buf[body..end];
    var func := FindAt(buf, end, body, NO_FUNC);
    FindSlice(buf, body, end, NO_FUNC);
    if func < 0 {
      return false;
    }
    var cstart := SpacesEnd(buf, body, func + |NO_FUNC|, end);
    SliceOfSlice(buf, body, end, cstart - body, |text|);
    return buf[cstart..end] == cmd;
  }

  method JudgeEchoed(buf: string, body: nat, from: nat, end: nat) returns (v: Verdict)
    requires body <= from <= end <= |buf|
    ensures v == JudgeVerdict(buf[body..end], from - body)
  {
    hide At;
    ghost var text := buf[body..end];
    var start := SpacesEnd(buf, body, from, end);
    var vend := end;
    while vend > start && (buf[vend - 1] == ' ' || buf[vend - 1] == '\r')
      invariant start <= vend <= end
      invariant TrimEnd(text, start - body, |text|) == TrimEnd(text, start - body, vend - body)
    {
      assert text[vend - body - 1] == buf[vend - 1];
      vend := vend - 1;
    }
    assert vend > start ==> text[vend - body - 1] == buf[vend - 1];
    SliceOfSlice(buf, body, end, start - body, vend - body);
    VerdictSlice(buf, body, start, vend, end);
    if start + 12 <= vend && buf[start..start + 12] == PARSING_FAIL {
      return Rejected;
    } else if buf[start..vend] == "OK" {
      return Ok;
    }
    return None;
  }

  lemma VerdictSlice(buf: string, body: nat, start: nat, vend: nat, end: nat)
    requires body <= start <= vend <= end <= |buf|
    ensures At(buf[body..end][..vend - body], start - body, PARSING_FAIL)
       <==> (start + 12 <= vend && buf[start..start + 12] == PARSING_FAIL)
  {
    SliceOfSlice(buf, body, end, 0, vend - body);
    if start + 12 <= vend {
      SliceOfSlice(buf, body, vend, start - body, start - body + 12);
    }
  }

  // One complete record, judged for a command.
  method JudgeRecord(buf: string, body: nat, end: nat, cmd: string) returns (v: Verdict)
    requires body <= end <= |buf|
    ensures v == Judge(buf[body..end], cmd)
  {
    hide At, Find, JudgeVerdict;
    ghost var text := buf[body..end];
    var noEcho := end - body >= 9 && buf[body..body + 9] == NO_ECHO;
    NoEchoSlice(buf, body, end);
    if noEcho {
      var rejected := JudgeNoEcho(buf, body, end, cmd);
      return if rejected then Rejected else None;
    }
    var resp := FindAt(buf, end, body, RESPONSE);
    FindSlice(buf, body, end, RESPONSE);
    if resp >= 0 {
      ResponseInside(text);
      assert buf[body..resp] == text[..resp - body];
      if buf[body..resp] == cmd {
        v := JudgeEchoed(buf, body, resp + |RESPONSE|, end);
        return v;
      }
    }
    return None;
  }

  lemma ResponseInside(text: string)
    ensures var r := Find(text, 0, RESPONSE); r >= 0 ==> r + |RESPONSE| <= |text|
  {
  }

  lemma NoEchoSlice(buf: string, body: nat, end: nat)
    requires body <= end <= |buf|
    ensures At(buf[body..end], 0, NO_ECHO) <==> (end - body >= 9 && buf[body..body + 9] == NO_ECHO)
  {
    if end - body >= 9 {
      assert buf[body..end][0..9] == buf[body..body + 9];
    }
  }

  // ----------------------------------------------------------------- the scan

  // The records judged so far and those still ahead are those of the whole buffer.
  ghost predicate Judged(buf: string, pos: nat, done: seq<Record>, cmd: string, verdict: Verdict)
  {
    && done + Records(buf, pos) == Records(buf, 0)
    && InBuffer(buf, done) && verdict == LastVerdict(buf, done, cmd)
  }

  lemma JudgeNext(buf: string, pos: nat, rec: nat, star: nat, done: seq<Record>, cmd: string, verdict: Verdict)
    requires Judged(buf, pos, done, cmd, verdict)
    requires Find(buf, pos, PREFIX) == rec && StarOf(buf, rec) == star
    ensures var v := Judge(buf[rec + |PREFIX|..star], cmd);
            Judged(buf, star, done + [Record(rec, star)], cmd, if v != None then v else verdict)
  {
    hide Judge, StarOf, Find;
    var r := Record(rec, star);
    assert Records(buf, pos) == [r] + Records(buf, star);
    assert (done + [r]) + Records(buf, star) == done + Records(buf, pos);
    LastVerdictSplit(buf, done, [r], cmd);
    assert [r][..0] == [];
    assert TextOf(buf, r) == buf[rec + |PREFIX|..star];
  }

  lemma Finish(buf: string, pos: nat, done: seq<Record>, cmd: string, verdict: Verdict)
    requires Judged(buf, pos, done, cmd, verdict) && Find(buf, pos, PREFIX) < 0
    ensures verdict == VerdictOf(buf, cmd)
  {
    hide Judge, StarOf, Find;
    assert done + [] == done;
  }

  lemma PrefixInside(buf: string, pos: nat)
    ensures var r := Find(buf, pos, PREFIX); r >= 0 ==> pos <= r && r + |PREFIX| <= |buf|
  {
  }

  method Scan(buf: string, cmd: string) returns (verdict: Verdict)
    ensures verdict == VerdictOf(buf, cmd)
  {
    hide Judge, FirstStar, Find;
    verdict := None;
    if |buf| == 0 {
      EmptyVerdict(buf, cmd);
      return;
    }
    assert buf[..|buf|] == buf;
    var pos := 0;
    ghost var done: seq<Record> := [];
    while true
      invariant pos <= |buf| && Judged(buf, pos, done, cmd, verdict)
      decreases |buf| - pos
    {
      var rec := FindAt(buf, |buf|, pos, PREFIX);
      if rec < 0 {
        break;
      }
      PrefixInside(buf, pos);
      var body := rec + |PREFIX|;
      var next := FindAt(buf, |buf|, body, PREFIX);
      var star := FindStar(buf, rec, next);
      if star < 0 || (next >= 0 && next < star) {
        pos := body;
        continue;
      }
      var v := JudgeRecord(buf, body, star, cmd);
      JudgeNext(buf, pos, rec, star, done, cmd, verdict);
      done := done + [Record(rec, star)];
      if v != None {
        verdict := v;
      }
      pos := star;
    }
    Finish(buf, pos, done, cmd, verdict);
  }

  lemma EmptyVerdict(buf: string, cmd: string)
    requires buf == ""
    ensures VerdictOf(buf, cmd) == None
  {
  }
}
