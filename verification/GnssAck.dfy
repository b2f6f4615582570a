// What a buffer of UM980 output says about a command: the complete, checksummed "$command,"
// records in it, and the last of them that judges the command. Bytes are characters below 256.
module GnssAck {
  import opened Words

  datatype Verdict = None | Ok | Rejected

  const PREFIX: string := "$command,"
  const RESPONSE: string := ",response:"
  const NO_ECHO: string := "response:"
  const NO_FUNC: string := "NO MATCHING FUNC"
  const PARSING_FAIL: string := "PARSING FAIL"

  // ------------------------------------------------------------- searching

  predicate At(hay: string, i: nat, needle: string)
  {
    i + |needle| <= |hay| && hay[i..i + |needle|] == needle
  }

  lemma SliceOfSlice(p: string, from: nat, end: nat, a: nat, b: nat)
    requires from <= end <= |p| && a <= b <= end - from
    ensures p[from..end][a..b] == p[from + a..from + b]
  {
    assert forall k :: 0 <= k < b - a ==> p[from..end][a..b][k] == p[from..end][a + k] == p[from + a + k];
  }

  // Offset of the first occurrence at or after `from`, or -1.
  function Find(hay: string, from: nat, needle: string): (r: int)
    ensures r == -1 || (from <= r && At(hay, r, needle))
    ensures r == -1 ==> forall i: nat :: from <= i ==> !At(hay, i, needle)
    ensures r >= 0 ==> forall i: nat :: from <= i < r ==> !At(hay, i, needle)
    decreases if from <= |hay| then |hay| - from + 1 else 0
  {
    if from + |needle| > |hay| then -1
    else if At(hay, from, needle) then from
    else Find(hay, from + 1, needle)
  }

  lemma FindIs(hay: string, from: nat, needle: string, r: int)
    requires r == -1 ==> forall i: nat :: from <= i ==> !At(hay, i, needle)
    requires r >= 0 ==> from <= r && At(hay, r, needle) && forall i: nat :: from <= i < r ==> !At(hay, i, needle)
    requires r >= -1
    ensures Find(hay, from, needle) == r
  {
    var f := Find(hay, from, needle);
    assert f >= 0 ==> At(hay, f, needle);
    assert r >= 0 ==> At(hay, r, needle);
  }

  // ------------------------------------------------------------ checksums

  predicate IsHex(c: char) { '0' <= c <= '9' || 'a' <= c <= 'f' || 'A' <= c <= 'F' }

  function HexVal(c: char): (v: nat)
    requires IsHex(c)
    ensures v < 16
  {
    if '0' <= c <= '9' then c as int - '0' as int
    else if 'a' <= c <= 'f' then c as int - 'a' as int + 10
    else c as int - 'A' as int + 10
  }

  // Exclusive or of all characters.
  function XorAll(s: string): nat
  {
    if s == "" then 0 else BitXor(XorAll(s[..|s| - 1]), s[|s| - 1] as int)
  }

  // "*" at `star`, both digits present, and the checksum of [rec, star) correct.
  predicate ValidAt(buf: string, rec: nat, star: nat)
    requires rec <= star < |buf|
  {
    && star + 2 < |buf|
    && IsHex(buf[star + 1]) && IsHex(buf[star + 2])
    && XorAll(buf[rec..star]) == 16 * HexVal(buf[star + 1]) + HexVal(buf[star + 2])
  }

  // --------------------------------------------------------------- records

  // First star with a correct checksum that does not lie behind the next record start.
  function FirstStar(buf: string, rec: nat, next: int, from: nat): (r: int)
    requires rec <= from
    ensures r == -1 || (from <= r < |buf| && (next >= 0 ==> r <= next) && At(buf, r, "*") && ValidAt(buf, rec, r))
    decreases if from <= |buf| then |buf| - from + 1 else 0
  {
    var s := Find(buf, from, "*");
    if s < 0 || (next >= 0 && s > next) then -1
    else if ValidAt(buf, rec, s) then s
    else FirstStar(buf, rec, next, s + 1)
  }

  datatype Record = Record(rec: nat, star: nat)

  function NextRecord(buf: string, rec: nat): int
  {
    Find(buf, rec + |PREFIX|, PREFIX)
  }

  function StarOf(buf: string, rec: nat): (r: int)
    ensures r == -1 || rec + |PREFIX| <= r < |buf|
  {
    FirstStar(buf, rec, NextRecord(buf, rec), rec + |PREFIX|)
  }

  // The complete records from `pos` on, in the order the scanner judges them.
  function Records(buf: string, pos: nat): (r: seq<Record>)
    decreases if pos <= |buf| then |buf| - pos + 1 else 0
  {
    var rec := Find(buf, pos, PREFIX);
    if rec < 0 then []
    else
      var star := StarOf(buf, rec);
      if star < 0 then Records(buf, rec + |PREFIX|)
      else [Record(rec, star)] + Records(buf, star)
  }

  // --------------------------------------------------------------- judging

  function SkipSpaces(t: string, i: nat): (r: nat)
    requires i <= |t|
    ensures i <= r <= |t|
    decreases |t| - i
  {
    if i < |t| && t[i] == ' ' then SkipSpaces(t, i + 1) else i
  }

  function TrimEnd(t: string, v: nat, end: nat): (r: nat)
    requires v <= end <= |t|
    ensures v <= r <= end
  {
    if end > v && (t[end - 1] == ' ' || t[end - 1] == '\r') then TrimEnd(t, v, end - 1) else end
  }

  // What the text between prefix and star says about a command.
  function Judge(text: string, cmd: string): Verdict
  {
    if At(text, 0, NO_ECHO) then
      // The documented failure form: no echo, the command at the end.
      var func := Find(text, 0, NO_FUNC);
      if func >= 0 && text[SkipSpaces(text, func + |NO_FUNC|)..] == cmd then Rejected else None
    else
      var resp := Find(text, 0, RESPONSE);
      if resp >= 0 && text[..resp] == cmd then JudgeVerdict(text, resp + |RESPONSE|) else None
  }

  // The verdict text, trimmed: it must be OK, or start with PARSING FAIL.
  function JudgeVerdict(text: string, from: nat): Verdict
    requires from <= |text|
  {
    var v := SkipSpaces(text, from);
    var end := TrimEnd(text, v, |text|);
    if At(text[..end], v, PARSING_FAIL) then Rejected
    else if text[v..end] == "OK" then Ok
    else None
  }

  // -------------------------------------------------- what a verdict text says

  predicate OkAt(v: string, k: nat)
    requires k + 2 <= |v|
  {
    && (forall j :: 0 <= j < k ==> v[j] == ' ') && v[k] == 'O' && v[k + 1] == 'K'
    && forall j :: k + 2 <= j < |v| ==> v[j] == ' ' || v[j] == '\r'
  }

  // Spaces, "OK", and nothing behind it but spaces and carriage returns.
  ghost predicate SaysOk(v: string) { exists k: nat :: k + 2 <= |v| && OkAt(v, k) }

  predicate FailsAt(v: string, k: nat)
    requires k + 12 <= |v|
  {
    (forall j :: 0 <= j < k ==> v[j] == ' ') && v[k..k + 12] == "PARSING FAIL"
  }

  // Spaces, and then a text that starts with PARSING FAIL.
  ghost predicate SaysFail(v: string) { exists k: nat :: k + 12 <= |v| && FailsAt(v, k) }

  lemma {:induction false} SkipSpacesExact(t: string, i: nat)
    requires i <= |t|
    ensures var r := SkipSpaces(t, i);
            (forall k :: i <= k < r ==> t[k] == ' ') && (r < |t| ==> t[r] != ' ')
    decreases |t| - i
  {
    if i < |t| && t[i] == ' ' {
      SkipSpacesExact(t, i + 1);
    }
  }

  lemma {:induction false} TrimEndExact(t: string, v: nat, end: nat)
    requires v <= end <= |t|
    ensures var r := TrimEnd(t, v, end);
            (forall k :: r <= k < end ==> t[k] == ' ' || t[k] == '\r')
            && (r > v ==> t[r - 1] != ' ' && t[r - 1] != '\r')
  {
    if end > v && (t[end - 1] == ' ' || t[end - 1] == '\r') {
      TrimEndExact(t, v, end - 1);
    }
  }

  // The verdict text is an approval only if it is OK and nothing else; NOT OK, an empty text and
  // anything unknown is no verdict.
  lemma EchoedVerdictExact(t: string, from: nat)
    requires from <= |t|
    ensures JudgeVerdict(t, from) == Ok <==> SaysOk(t[from..])
    ensures JudgeVerdict(t, from) == Rejected <==> SaysFail(t[from..])
  {
    var w := t[from..];
    var v := SkipSpaces(t, from);
    var end := TrimEnd(t, v, |t|);
    SkipSpacesExact(t, from);
    TrimEndExact(t, v, |t|);
    var k: nat := v - from;
    assert forall j :: 0 <= j < |w| ==> w[j] == t[from + j];
    VerdictAtK(w, k);
    if end - v >= 2 {
      assert t[v..end][0] == t[v] == w[k] && t[v..end][1] == t[v + 1] == w[k + 1];
    }
    if SaysOk(w) {
      assert end == v + 2;
      assert t[v..end] == "OK" && !At(t[..end], v, PARSING_FAIL);
    }
    FailInFront(t, from, v, end);
  }

  // What a text says is said behind its leading spaces.
  lemma VerdictAtK(w: string, k: nat)
    requires k <= |w| && (forall j :: 0 <= j < k ==> w[j] == ' ') && (k < |w| ==> w[k] != ' ')
    ensures SaysOk(w) <==> k + 2 <= |w| && OkAt(w, k)
    ensures SaysFail(w) <==> k + 12 <= |w| && w[k..k + 12] == "PARSING FAIL"
  {
    forall i: nat | i + 2 <= |w| && OkAt(w, i) ensures i == k {
    }
    forall i: nat | i + 12 <= |w| && FailsAt(w, i) ensures i == k {
      assert w[i] == w[i..i + 12][0] == 'P';
    }
    assert k + 12 <= |w| && w[k..k + 12] == "PARSING FAIL" ==> FailsAt(w, k);
  }

  // Trimming does not cut PARSING FAIL short.
  lemma FailInFront(t: string, from: nat, v: nat, end: nat)
    requires from <= v <= end <= |t| && forall k :: end <= k < |t| ==> t[k] == ' ' || t[k] == '\r'
    ensures At(t[..end], v, PARSING_FAIL)
       <==> v - from + 12 <= |t[from..]| && t[from..][v - from..v - from + 12] == "PARSING FAIL"
  {
    var w, k := t[from..], v - from;
    if k + 12 <= |w| && w[k..k + 12] == "PARSING FAIL" {
      assert t[v + 11] == w[k..k + 12][11] == 'L';
      assert t[..end][v..v + 12] == w[k..k + 12];
    }
    if At(t[..end], v, PARSING_FAIL) {
      assert t[..end][v..v + 12] == w[k..k + 12];
    }
  }

  function TextOf(buf: string, r: Record): string
    requires r.rec + |PREFIX| <= r.star <= |buf|
  {
    buf[r.rec + |PREFIX|..r.star]
  }

  predicate InBuffer(buf: string, rs: seq<Record>)
  {
    forall i :: 0 <= i < |rs| ==> rs[i].rec + |PREFIX| <= rs[i].star <= |buf|
  }

  // The last record that judges the command wins.
  function LastVerdict(buf: string, rs: seq<Record>, cmd: string): Verdict
    requires InBuffer(buf, rs)
  {
    if rs == [] then None
    else
      var v := Judge(TextOf(buf, rs[|rs| - 1]), cmd);
      if v != None then v else LastVerdict(buf, rs[..|rs| - 1], cmd)
  }

  // ---------------------------------------------------------- exactness

  predicate Starts(buf: string, i: nat) { At(buf, i, PREFIX) }

  // A complete record, said without a scan: a prefix, and the first correctly checksummed star
  // after it, with no other record starting in between.
  predicate IsRecord(buf: string, r: Record)
  {
    && Starts(buf, r.rec)
    && r.rec + |PREFIX| <= r.star < |buf|
    && buf[r.star] == '*' && ValidAt(buf, r.rec, r.star)
    && (forall i: nat :: r.rec + |PREFIX| <= i < r.star ==> !Starts(buf, i))
    && (forall i :: r.rec + |PREFIX| <= i < r.star ==> buf[i] == '*' ==> !ValidAt(buf, r.rec, i))
  }

  predicate Ordered(rs: seq<Record>)
  {
    forall i, j :: 0 <= i < j < |rs| ==> rs[i].star < rs[j].rec
  }

  lemma StarAt(buf: string, i: nat)
    requires i < |buf|
    ensures At(buf, i, "*") <==> buf[i] == '*'
  {
    assert buf[i..i + 1] == [buf[i]];
  }

  // No record start overlaps another or contains a star.
  lemma PrefixAlone(buf: string, rec: nat, i: nat)
    requires Starts(buf, rec) && rec < i < rec + |PREFIX|
    ensures !Starts(buf, i) && buf[i] != '*' && buf[i] != '$'
  {
    assert buf[i] == buf[rec..rec + |PREFIX|][i - rec] == PREFIX[i - rec];
    StartsDollar(buf, i);
  }

  lemma StartsDollar(buf: string, i: nat)
    ensures Starts(buf, i) ==> i < |buf| && buf[i] == '$'
  {
    assert Starts(buf, i) ==> buf[i] == buf[i..i + |PREFIX|][0];
  }

  lemma FindStar(buf: string, from: nat)
    ensures var s := Find(buf, from, "*");
            && (s >= 0 ==> s < |buf| && buf[s] == '*')
            && forall i :: from <= i < |buf| && (s < 0 || i < s) ==> buf[i] != '*'
  {
    var s := Find(buf, from, "*");
    forall i | from <= i < |buf| ensures At(buf, i, "*") <==> buf[i] == '*' {
      StarAt(buf, i);
    }
  }

  // No star between `from` and `to` carries the checksum of a record from `rec` on.
  predicate NoEnd(buf: string, rec: nat, from: nat, to: nat)
    requires rec <= from
  {
    forall i :: from <= i < to && i < |buf| && buf[i] == '*' ==> !ValidAt(buf, rec, i)
  }

  lemma {:induction false} FirstStarExact(buf: string, rec: nat, next: int, from: nat)
    requires rec <= from
    ensures var s := FirstStar(buf, rec, next, from);
            if s >= 0 then buf[s] == '*' && NoEnd(buf, rec, from, s)
            else NoEnd(buf, rec, from, if next >= 0 then next + 1 else |buf|)
    decreases if from <= |buf| then |buf| - from + 1 else 0
  {
    hide ValidAt, Find;
    var s := Find(buf, from, "*");
    FindStar(buf, from);
    if s >= 0 && !(next >= 0 && s > next) && !ValidAt(buf, rec, s) {
      FirstStarExact(buf, rec, next, s + 1);
    }
  }

  // The star found for a record start completes a record, and without one there is none.
  lemma StarOfExact(buf: string, rec: nat)
    requires Starts(buf, rec)
    ensures var s := StarOf(buf, rec);
            && (s >= 0 ==> IsRecord(buf, Record(rec, s)))
            && (forall star: nat :: IsRecord(buf, Record(rec, star)) ==> s == star)
  {
    var next := NextRecord(buf, rec);
    var s := StarOf(buf, rec);
    FirstStarExact(buf, rec, next, rec + |PREFIX|);
    if next >= 0 {
      StartsDollar(buf, next);
      assert Starts(buf, next);
    }
    forall star: nat | IsRecord(buf, Record(rec, star)) ensures s == star {
      OnlyEnd(buf, rec, next, s, star);
    }
  }

  lemma OnlyEnd(buf: string, rec: nat, next: int, s: int, star: nat)
    requires IsRecord(buf, Record(rec, star)) && s >= -1
    requires next >= 0 ==> next >= rec + |PREFIX| && Starts(buf, next)
    requires s >= 0 ==> IsRecord(buf, Record(rec, s))
    requires s < 0 ==> NoEnd(buf, rec, rec + |PREFIX|, if next >= 0 then next + 1 else |buf|)
    ensures s == star
  {
    hide ValidAt;
  }

  // Exactly the complete records from `pos` on, in order, each once.
  ghost predicate Lists(buf: string, pos: nat, rs: seq<Record>)
  {
    && Ordered(rs)
    && (forall r :: r in rs ==> pos <= r.rec && IsRecord(buf, r))
    && (forall r: Record :: pos <= r.rec && IsRecord(buf, r) ==> r in rs)
  }

  // The scanner finds exactly the complete records.
  lemma {:induction false} RecordsExact(buf: string, pos: nat)
    ensures Lists(buf, pos, Records(buf, pos))
    decreases if pos <= |buf| then |buf| - pos + 1 else 0
  {
    hide ValidAt, StarOf, IsRecord;
    var rec := Find(buf, pos, PREFIX);
    if rec < 0 {
      NoStartNoRecord(buf, pos);
    } else {
      StarOfExact(buf, rec);
      var star := StarOf(buf, rec);
      var from := if star < 0 then rec + |PREFIX| else star;
      RecordsExact(buf, from);
      ListsStep(buf, pos, rec, star, Records(buf, from));
    }
  }

  lemma NoStartNoRecord(buf: string, pos: nat)
    requires forall i: nat :: pos <= i ==> !Starts(buf, i)
    ensures Lists(buf, pos, [])
  {
    hide ValidAt;
    forall r: Record | pos <= r.rec ensures !IsRecord(buf, r) {
      assert !Starts(buf, r.rec);
    }
  }

  lemma ListsStep(buf: string, pos: nat, rec: nat, star: int, rest: seq<Record>)
    requires pos <= rec && Starts(buf, rec) && forall i: nat :: pos <= i < rec ==> !Starts(buf, i)
    requires star >= -1 && (star >= 0 ==> IsRecord(buf, Record(rec, star)))
    requires forall s: nat :: IsRecord(buf, Record(rec, s)) ==> star == s
    requires Lists(buf, if star < 0 then rec + |PREFIX| else star, rest)
    ensures Lists(buf, pos, if star < 0 then rest else [Record(rec, star)] + rest)
  {
    var all := if star < 0 then rest else [Record(rec, star)] + rest;
    forall r: Record | pos <= r.rec && IsRecord(buf, r) ensures r in all {
      AfterStart(buf, pos, rec, r);
      NoneBetween(buf, rec, star, r);
    }
    assert star >= 0 ==> rec + |PREFIX| <= star;
    forall i, j | 0 <= i < j < |all| ensures all[i].star < all[j].rec {
      if star >= 0 && i == 0 {
        assert all[j] == rest[j - 1] && rest[j - 1] in rest;
        StarNotStart(buf, Record(rec, star), all[j]);
      }
    }
  }

  lemma StarNotStart(buf: string, a: Record, b: Record)
    requires IsRecord(buf, a) && IsRecord(buf, b)
    ensures a.star != b.rec
  {
    hide ValidAt;
    StartsDollar(buf, b.rec);
  }

  lemma AfterStart(buf: string, pos: nat, rec: nat, r: Record)
    requires pos <= r.rec && IsRecord(buf, r) && forall i: nat :: pos <= i < rec ==> !Starts(buf, i)
    ensures rec <= r.rec
  {
    hide ValidAt;
  }

  // A record that starts behind `rec` starts behind the record at `rec`.
  lemma NoneBetween(buf: string, rec: nat, star: int, r: Record)
    requires Starts(buf, rec) && rec <= r.rec && IsRecord(buf, r)
    requires star >= 0 ==> IsRecord(buf, Record(rec, star))
    ensures r.rec == rec ==> r == Record(rec, r.star)
    ensures r.rec > rec ==> r.rec >= rec + |PREFIX| && r.rec >= star
  {
    hide ValidAt;
    if rec < r.rec < rec + |PREFIX| {
      PrefixAlone(buf, rec, r.rec);
    }
  }

  // ------------------------------------------------------------- streaming

  lemma AtExtend(hay: string, ext: string, i: nat, needle: string)
    requires i + |needle| <= |hay|
    ensures At(hay + ext, i, needle) <==> At(hay, i, needle)
  {
    assert (hay + ext)[i..i + |needle|] == hay[i..i + |needle|];
  }

  lemma FindExtend(hay: string, ext: string, from: nat, needle: string)
    requires Find(hay, from, needle) >= 0
    ensures Find(hay + ext, from, needle) == Find(hay, from, needle)
  {
    var r := Find(hay, from, needle);
    forall i: nat | i <= r ensures At(hay + ext, i, needle) <==> At(hay, i, needle) {
      AtExtend(hay, ext, i, needle);
    }
    FindIs(hay + ext, from, needle, r);
  }

  lemma ValidExtend(buf: string, ext: string, rec: nat, star: nat)
    requires rec <= star && star + 2 < |buf|
    ensures ValidAt(buf + ext, rec, star) <==> ValidAt(buf, rec, star)
  {
    assert (buf + ext)[rec..star] == buf[rec..star];
  }

  // Within the shorter buffer a complete record and its completeness mean the same.
  lemma RecordExtend(buf: string, ext: string, r: Record)
    requires r.star + 2 < |buf|
    ensures IsRecord(buf + ext, r) <==> IsRecord(buf, r)
  {
    hide ValidAt, At;
    var all := buf + ext;
    if r.rec + |PREFIX| <= r.star {
      AtExtend(buf, ext, r.rec, PREFIX);
      forall i: nat | r.rec <= i <= r.star ensures ValidAt(all, r.rec, i) <==> ValidAt(buf, r.rec, i) {
        ValidExtend(buf, ext, r.rec, i);
      }
      if buf[r.star] == '*' {
        forall i: nat | r.rec + |PREFIX| <= i < r.star ensures Starts(all, i) <==> Starts(buf, i) {
          StartBeforeStar(buf, ext, i, r.star);
        }
      }
    }
  }

  // A record start before a star lies before it entirely.
  lemma StartBeforeStar(buf: string, ext: string, i: nat, star: nat)
    requires i < star < |buf| && buf[star] == '*'
    ensures Starts(buf + ext, i) <==> Starts(buf, i)
  {
    var all := buf + ext;
    if i + |PREFIX| <= |buf| {
      AtExtend(buf, ext, i, PREFIX);
    } else {
      NoStarInStart(all, i, star);
    }
  }

  lemma NoStarInStart(buf: string, i: nat, k: nat)
    requires i <= k < |buf| && k < i + |PREFIX|
    ensures Starts(buf, i) ==> buf[k] != '*'
  {
    assert Starts(buf, i) ==> buf[k] == buf[i..i + |PREFIX|][k - i];
  }

  lemma StartsExtend(buf: string, ext: string, i: nat)
    requires i + |PREFIX| <= |buf|
    ensures Starts(buf + ext, i) <==> Starts(buf, i)
  {
    AtExtend(buf, ext, i, PREFIX);
  }

  // The records judged in a buffer stay the first records judged in every extension of it.
  lemma {:induction false} RecordsExtend(buf: string, ext: string, pos: nat)
    ensures Records(buf, pos) <= Records(buf + ext, pos)
    decreases if pos <= |buf| then |buf| - pos + 1 else 0
  {
    hide ValidAt, StarOf, IsRecord;
    var rec := Find(buf, pos, PREFIX);
    if rec >= 0 {
      FindExtend(buf, ext, pos, PREFIX);
      assert Starts(buf, rec) && Starts(buf + ext, rec);
      StarOfExact(buf, rec);
      StarOfExact(buf + ext, rec);
      StarExtend(buf, ext, rec);
      var star := StarOf(buf, rec);
      RecordsExtend(buf, ext, if star < 0 then rec + |PREFIX| else star);
    }
  }

  // Either the record at `rec` is decided the same way, or it is still arriving and nothing
  // behind it started.
  lemma StarExtend(buf: string, ext: string, rec: nat)
    requires Starts(buf, rec) && Starts(buf + ext, rec)
    ensures var star, later := StarOf(buf, rec), StarOf(buf + ext, rec);
            star == later || (star < 0 && Records(buf, rec + |PREFIX|) == [])
  {
    hide ValidAt, StarOf, IsRecord;
    var star, later := StarOf(buf, rec), StarOf(buf + ext, rec);
    StarOfExact(buf, rec);
    StarOfExact(buf + ext, rec);
    if star >= 0 {
      CompleteInBuffer(buf, Record(rec, star));
      RecordExtend(buf, ext, Record(rec, star));
    } else if later >= 0 {
      var next := Find(buf, rec + |PREFIX|, PREFIX);
      if later + 2 < |buf| {
        RecordExtend(buf, ext, Record(rec, later));
      }
      assert next >= 0 ==> Starts(buf, next);
      NextBeyond(buf, ext, rec, later, next);
    }
  }

  lemma CompleteInBuffer(buf: string, r: Record)
    requires IsRecord(buf, r)
    ensures r.star + 2 < |buf| && r.rec + |PREFIX| <= r.star
  {
  }

  lemma NextBeyond(buf: string, ext: string, rec: nat, later: nat, next: int)
    requires IsRecord(buf + ext, Record(rec, later)) && later + 2 >= |buf|
    requires next >= 0 ==> next >= rec + |PREFIX| && Starts(buf, next)
    ensures next < 0
  {
    hide ValidAt;
    if next >= 0 {
      StartsExtend(buf, ext, next);
    }
  }

  // ------------------------------------------------------------- verdicts

  // The verdict of a whole buffer.
  function VerdictOf(buf: string, cmd: string): Verdict
  {
    RecordsInBuffer(buf);
    LastVerdict(buf, Records(buf, 0), cmd)
  }

  lemma RecordsInBuffer(buf: string)
    ensures InBuffer(buf, Records(buf, 0))
  {
    hide ValidAt, Records;
    RecordsExact(buf, 0);
    var rs := Records(buf, 0);
    forall i | 0 <= i < |rs| ensures rs[i].rec + |PREFIX| <= rs[i].star <= |buf| {
      assert rs[i] in rs;
    }
  }

  lemma {:induction false} LastVerdictSplit(buf: string, a: seq<Record>, b: seq<Record>, cmd: string)
    requires InBuffer(buf, a + b)
    ensures InBuffer(buf, a) && InBuffer(buf, b)
    ensures LastVerdict(buf, a + b, cmd)
         == if LastVerdict(buf, b, cmd) != None then LastVerdict(buf, b, cmd) else LastVerdict(buf, a, cmd)
  {
    hide Judge;
    assert forall i :: 0 <= i < |a| ==> a[i] == (a + b)[i];
    assert forall i :: 0 <= i < |b| ==> b[i] == (a + b)[|a| + i];
    if b == [] {
      assert a + b == a;
    } else {
      assert (a + b)[..|a + b| - 1] == a + b[..|b| - 1];
      LastVerdictSplit(buf, a, b[..|b| - 1], cmd);
    }
  }

  lemma {:induction false} LastVerdictExtend(buf: string, ext: string, rs: seq<Record>, cmd: string)
    requires InBuffer(buf, rs)
    ensures InBuffer(buf + ext, rs) && LastVerdict(buf + ext, rs, cmd) == LastVerdict(buf, rs, cmd)
  {
    hide Judge;
    if rs != [] {
      LastVerdictExtend(buf, ext, rs[..|rs| - 1], cmd);
      assert TextOf(buf + ext, rs[|rs| - 1]) == TextOf(buf, rs[|rs| - 1]);
    }
  }

  // Streaming: more bytes only add records at the end, and the verdict is overruled only by one
  // of those, if it judges this command.
  lemma Streaming(buf: string, ext: string, cmd: string)
    ensures var old', new' := Records(buf, 0), Records(buf + ext, 0);
            && old' <= new'
            && InBuffer(buf + ext, new'[|old'|..])
            && var later := LastVerdict(buf + ext, new'[|old'|..], cmd);
               VerdictOf(buf + ext, cmd) == if later != None then later else VerdictOf(buf, cmd)
  {
    hide Records, Judge;
    var a, b := Records(buf, 0), Records(buf + ext, 0);
    RecordsExtend(buf, ext, 0);
    RecordsInBuffer(buf);
    RecordsInBuffer(buf + ext);
    assert b == a + b[|a|..];
    LastVerdictSplit(buf + ext, a, b[|a|..], cmd);
    LastVerdictExtend(buf, ext, a, cmd);
  }
}
