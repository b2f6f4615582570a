// Installing the files of a release: firmware into the spare app slot, the web interface into a
// staging partition and from there, once complete, over the live one.
module WebUpdate {
  import opened Words

  const CHUNK: nat := 1024
  const ERASED: Byte := 0xFF

  // One read from the server and whether writing it to flash works.
  datatype Chunk = Chunk(bytes: seq<Byte>, writes: bool)

  // What one download meets. `opens` stands for memory, HTTP client and connection; `prepared`
  // for finding and erasing the target; `readFails` for a connection that breaks.
  datatype Download = Download(
    opens: bool, status: int, contentLength: int, prepared: bool, chunks: seq<Chunk>, readFails: bool)

  // What copying over the live partition meets: how far an erase that fails got, and the chunk
  // whose read or write fails, if reached.
  datatype CopyEnv = CopyEnv(found: bool, eraseWorks: bool, erasedBefore: nat, failAt: nat)

  datatype File =
    | Firmware(d: Download, endWorks: bool, selectWorks: bool)
    | Web(d: Download, copy: CopyEnv)

  function Blank(n: nat): (r: seq<Byte>)
    ensures |r| == n && forall i :: 0 <= i < n ==> r[i] == ERASED
  {
    seq(n, _ => ERASED)
  }

  // An erase that fails has erased some of the partition, from its beginning.
  function HalfErased(p: seq<Byte>, n: nat): (r: seq<Byte>)
    ensures |r| == |p|
  {
    if n >= |p| then Blank(|p|) else Blank(n) + p[n..]
  }

  function WriteAt(p: seq<Byte>, offset: nat, data: seq<Byte>): (r: seq<Byte>)
    requires offset + |data| <= |p|
    ensures |r| == |p|
  {
    p[..offset] + data + p[offset + |data|..]
  }

  function Body(chunks: seq<Chunk>): seq<Byte>
  {
    if chunks == [] then [] else Body(chunks[..|chunks| - 1]) + chunks[|chunks| - 1].bytes
  }

  lemma BodyNext(chunks: seq<Chunk>, i: nat)
    requires i < |chunks|
    ensures Body(chunks[..i + 1]) == Body(chunks[..i]) + chunks[i].bytes
  {
    assert chunks[..i + 1][..i] == chunks[..i];
  }

  lemma {:induction false} BodyGrows(chunks: seq<Chunk>, i: nat)
    requires i <= |chunks|
    ensures |Body(chunks[..i])| <= |Body(chunks)|
    decreases |chunks| - i
  {
    if i < |chunks| {
      BodyNext(chunks, i);
      BodyGrows(chunks, i + 1);
    } else {
      assert chunks[..i] == chunks;
    }
  }

  // The whole body arrived and was written: status 200, no break, exactly the announced length.
  predicate Complete(d: Download)
  {
    && d.opens && d.status == 200 && d.contentLength > 0 && d.prepared && !d.readFails
    && (forall i :: 0 <= i < |d.chunks| ==> d.chunks[i].writes)
    && |Body(d.chunks)| == d.contentLength
  }

  predicate Staged(d: Download, size: nat)
  {
    Complete(d) && d.contentLength <= size
  }

  predicate CopyWorks(env: CopyEnv, staging: nat, live: nat)
  {
    env.found && env.eraseWorks && env.failAt * CHUNK >= staging && staging <= live
  }

  // What a copy that breaks off leaves of the live partition.
  predicate Broken(staging: seq<Byte>, before: seq<Byte>, live: seq<Byte>, env: CopyEnv)
  {
    if !env.found then live == before
    else if !env.eraseWorks then live == HalfErased(before, env.erasedBefore)
    else exists n: nat :: n < |staging| && n <= |live| && HoldsFirst(staging, live, n)
  }

  // The first n bytes of the staging copy, and erased flash behind them.
  predicate HoldsFirst(staging: seq<Byte>, live: seq<Byte>, n: nat)
    requires n <= |staging| && n <= |live|
  {
    live == staging[..n] + Blank(|live| - n)
  }

  // ------------------------------------------------------------ the device

  class Device {
    var staging: seq<Byte>
    var live: seq<Byte>
    var slot: seq<Byte>
    var newSelected: bool
    var totalWritten: nat

    constructor (s: seq<Byte>, l: seq<Byte>)
      ensures staging == s && live == l && !newSelected && totalWritten == 0
    {
      staging, live, slot, newSelected, totalWritten := s, l, [], false, 0;
    }

    // Erase the live partition and copy the staging partition over it, chunk by chunk. A copy that
    // breaks off leaves the chunks written so far in front of erased flash.
    method CopyToLive(env: CopyEnv) returns (ok: bool, copied: nat)
      modifies this`live
      ensures ok <==> CopyWorks(env, |staging|, |old(live)|)
      ensures |live| == |old(live)| && copied <= |staging| && copied <= |live|
      ensures !env.found ==> live == old(live)
      ensures env.found && !env.eraseWorks ==> live == HalfErased(old(live), env.erasedBefore)
      ensures env.found && env.eraseWorks ==> HoldsFirst(staging, live, copied)
      ensures env.found && env.eraseWorks ==> (ok <==> copied == |staging|)
      ensures ok ==> live == staging + Blank(|live| - |staging|)
    {
      copied := 0;
      if !env.found {
        return false, 0;
      }
      if !env.eraseWorks {
        live := HalfErased(live, env.erasedBefore);
        return false, 0;
      }
      live := Blank(|live|);
      copied := CopyChunks(env.failAt);
      return copied == |staging|, copied;
    }

    // The copy loop over an erased partition, up to the first chunk that fails or does not fit.
    method CopyChunks(failAt: nat) returns (copied: nat)
      requires live == Blank(|live|)
      modifies this`live
      ensures |live| == |old(live)| && copied <= |staging| && copied <= |live| && HoldsFirst(staging, live, copied)
      ensures copied == |staging| <==> failAt * CHUNK >= |staging| && |staging| <= |live|
    {
      hide HoldsFirst;
      copied := 0;
      var k := 0;
      HoldsNone(staging, live);
      while copied < |staging|
        invariant copied <= |staging| && copied <= |live| == |old(live)|
        invariant copied == |staging| || copied == k * CHUNK
        invariant k <= failAt && (k - 1) * CHUNK < |staging|
        invariant copied == |staging| ==> |staging| <= k * CHUNK
        invariant HoldsFirst(staging, live, copied)
        decreases |staging| - copied
      {
        var readSize := CHUNK;
        if copied + readSize > |staging| {
          readSize := |staging| - copied;
        }
        if k == failAt {
          return;
        }
        if copied + readSize > |live| {
          return;
        }
        CopyChunk(staging, live, copied, readSize);
        live := WriteAt(live, copied, staging[copied..copied + readSize]);
        copied := copied + readSize;
        k := k + 1;
      }
    }

    // The download loop shared by both kinds of file: every chunk is written behind the last.
    method Receive(d: Download, size: nat) returns (target: seq<Byte>, received: nat, ok: bool)
      modifies this`totalWritten
      ensures |target| == size
      ensures ok <==> !d.readFails && |Body(d.chunks)| <= size
                      && forall i :: 0 <= i < |d.chunks| ==> d.chunks[i].writes
      ensures ok ==> received == |Body(d.chunks)| && target == Body(d.chunks) + Blank(size - received)
      ensures ok ==> totalWritten == old(totalWritten) + received
    {
      target, received := Blank(size), 0;
      var i := 0;
      assert d.chunks[..0] == [];
      while i < |d.chunks|
        invariant 0 <= i <= |d.chunks| && |target| == size
        invariant received == |Body(d.chunks[..i])| <= size
        invariant target == Body(d.chunks[..i]) + Blank(size - received)
        invariant totalWritten == old(totalWritten) + received
        invariant forall j :: 0 <= j < i ==> d.chunks[j].writes
      {
        var c := d.chunks[i];
        BodyNext(d.chunks, i);
        BodyGrows(d.chunks, i + 1);
        if !c.writes || received + |c.bytes| > size {
          return target, received, false;
        }
        target := WriteAt(target, received, c.bytes);
        received := received + |c.bytes|;
        totalWritten := totalWritten + |c.bytes|;
        i := i + 1;
      }
      assert d.chunks[..i] == d.chunks;
      ok := !d.readFails;
    }

    // The live partition is not touched before the staging copy is complete.
    method UpdateWeb(d: Download, copy: CopyEnv) returns (ok: bool)
      modifies this`staging, this`live, this`totalWritten
      ensures ok <==> Staged(d, |old(staging)|) && CopyWorks(copy, |old(staging)|, |old(live)|)
      ensures !Staged(d, |old(staging)|) ==> live == old(live)
      ensures Staged(d, |old(staging)|) ==> staging == Body(d.chunks) + Blank(|old(staging)| - |Body(d.chunks)|)
      ensures Staged(d, |old(staging)|) && !ok ==> Broken(staging, old(live), live, copy)
      ensures ok ==> staging == Body(d.chunks) + Blank(|old(staging)| - |Body(d.chunks)|)
      ensures ok ==> live == staging + Blank(|old(live)| - |staging|)
      ensures |staging| == |old(staging)| && |live| == |old(live)|
      ensures ok ==> totalWritten == old(totalWritten) + |Body(d.chunks)|
    {
      if !d.opens || d.status != 200 || d.contentLength <= 0 || !d.prepared {
        return false;
      }
      var target, received, whole := Receive(d, |staging|);
      staging := target;
      if !whole || received != d.contentLength {
        return false;
      }
      var copied;
      ok, copied := CopyToLive(copy);
      assert copy.found && copy.eraseWorks ==> HoldsFirst(staging, live, copied);
    }

    // The spare slot is selected only behind a complete download. What is compared with the
    // announced length is the running total of all files of the release.
    method UpdateSlot(d: Download, size: nat, endWorks: bool, selectWorks: bool) returns (ok: bool)
      modifies this`slot, this`totalWritten, this`newSelected
      ensures ok <==> SlotFilled(d, old(totalWritten), size) && endWorks && selectWorks
      ensures ok ==> slot == Body(d.chunks) + Blank(size - |Body(d.chunks)|)
      ensures ok ==> totalWritten == old(totalWritten) + |Body(d.chunks)|
      ensures newSelected == (ok || old(newSelected))
    {
      if !d.opens || d.status != 200 || d.contentLength <= 0 || !d.prepared {
        return false;
      }
      var target, received, whole := Receive(d, size);
      slot := target;
      if !whole {
        return false;
      }
      if totalWritten != d.contentLength {
        return false;
      }
      if !endWorks || !selectWorks {
        return false;
      }
      newSelected := true;
      ok := true;
    }

    // All files of a release, up to the first that fails.
    method InstallRelease(files: seq<File>, slotSize: nat) returns (ok: bool)
      modifies this
      ensures ok <==> forall i :: 0 <= i < |files| ==> Applies(files, i, |old(staging)|, |old(live)|, slotSize)
      ensures (forall i :: 0 <= i < |files| ==> files[i].Web? ==> !Staged(files[i].d, |old(staging)|))
              ==> live == old(live)
    {
      hide Applies;
      totalWritten := 0;
      var i := 0;
      assert files[..0] == [];
      while i < |files|
        invariant 0 <= i <= |files|
        invariant totalWritten == Total(files[..i])
        invariant |staging| == |old(staging)| && |live| == |old(live)|
        invariant forall j :: 0 <= j < i ==> Applies(files, j, |staging|, |live|, slotSize)
        invariant (forall j :: 0 <= j < i ==> files[j].Web? ==> !Staged(files[j].d, |staging|)) ==> live == old(live)
      {
        var file := files[i];
        AppliesIs(files, i, |staging|, |live|, slotSize);
        TotalNext(files, i);
        var applied;
        match file {
          case Firmware(d, endWorks, selectWorks) => applied := UpdateSlot(d, slotSize, endWorks, selectWorks);
          case Web(d, copy) => applied := UpdateWeb(d, copy);
        }
        if !applied {
          return false;
        }
        i := i + 1;
      }
      return true;
    }
  }

  predicate SlotFilled(d: Download, before: nat, size: nat)
  {
    && d.opens && d.status == 200 && d.contentLength > 0 && d.prepared && !d.readFails
    && (forall i :: 0 <= i < |d.chunks| ==> d.chunks[i].writes)
    && |Body(d.chunks)| <= size
    && before + |Body(d.chunks)| == d.contentLength
  }

  // The bytes written for the first files of a release.
  function Total(files: seq<File>): nat
  {
    if files == [] then 0 else Total(files[..|files| - 1]) + |Body(files[|files| - 1].d.chunks)|
  }

  lemma TotalNext(files: seq<File>, i: nat)
    requires i < |files|
    ensures Total(files[..i + 1]) == Total(files[..i]) + |Body(files[i].d.chunks)|
  {
    assert files[..i + 1][..i] == files[..i];
  }

  predicate Applies(files: seq<File>, i: nat, staging: nat, live: nat, slot: nat)
    requires i < |files|
  {
    match files[i]
    case Firmware(d, endWorks, selectWorks) =>
      SlotFilled(d, Total(files[..i]), slot) && endWorks && selectWorks
    case Web(d, copy) => Staged(d, staging) && CopyWorks(copy, staging, live)
  }

  lemma AppliesIs(files: seq<File>, i: nat, staging: nat, live: nat, slot: nat)
    requires i < |files|
    ensures Applies(files, i, staging, live, slot)
       <==> match files[i]
            case Firmware(d, endWorks, selectWorks) =>
              SlotFilled(d, Total(files[..i]), slot) && endWorks && selectWorks
            case Web(d, copy) => Staged(d, staging) && CopyWorks(copy, staging, live)
  {
  }

  // What an installed release stands for: every file was answered with status 200 and an announced
  // length, nothing broke and every write worked; a web file is as long as announced, and firmware so
  // much shorter as the files before it are long.
  lemma InstalledIsWhole(files: seq<File>, i: nat, staging: nat, live: nat, slot: nat)
    requires i < |files| && Applies(files, i, staging, live, slot)
    ensures var d := files[i].d;
            && d.opens && d.status == 200 && d.contentLength > 0 && d.prepared && !d.readFails
            && (forall k :: 0 <= k < |d.chunks| ==> d.chunks[k].writes)
            && d.contentLength == |Body(d.chunks)| + (if files[i].Web? then 0 else Total(files[..i]))
            && |Body(d.chunks)| <= (if files[i].Web? then staging else slot)
  {
  }

  // ------------------------------------------------------- order of the files

  // Nothing goes wrong with a file itself: it arrives whole, fits, and is accepted.
  predicate Faultless(f: File, staging: nat, live: nat, slot: nat)
  {
    && Complete(f.d)
    && match f
       case Firmware(d, endWorks, selectWorks) => d.contentLength <= slot && endWorks && selectWorks
       case Web(d, copy) => d.contentLength <= staging && CopyWorks(copy, staging, live)
  }

  lemma {:induction false} TotalPositive(files: seq<File>, n: nat)
    requires n <= |files| && forall i :: 0 <= i < |files| ==> Complete(files[i].d)
    ensures Total(files[..n]) >= n
  {
    if n > 0 {
      TotalNext(files, n - 1);
      TotalPositive(files, n - 1);
    }
  }

  // A release of faultless files installs exactly if its firmware, if any, is its first file: the
  // running total makes firmware behind any other file look truncated.
  lemma FirmwareMustComeFirst(files: seq<File>, staging: nat, live: nat, slot: nat)
    requires forall i :: 0 <= i < |files| ==> Faultless(files[i], staging, live, slot)
    ensures (forall i :: 0 <= i < |files| ==> Applies(files, i, staging, live, slot))
       <==> (forall i :: 0 < i < |files| ==> files[i].Web?)
  {
    hide Applies, CopyWorks;
    assert forall i :: 0 <= i < |files| ==> Complete(files[i].d);
    forall i | 0 <= i < |files|
      ensures Applies(files, i, staging, live, slot) <==> (i > 0 ==> files[i].Web?)
    {
      assert Faultless(files[i], staging, live, slot);
      AppliesIs(files, i, staging, live, slot);
      TotalPositive(files, i);
      assert files[..0] == [];
    }
  }

  // Nor does the comparison catch truncation there: firmware that is cut short by exactly what
  // the files before it brought passes it.
  lemma TruncationGoesUnnoticed(web: Download, firmware: Download, copy: CopyEnv, staging: nat, live: nat, slot: nat)
    requires Staged(web, staging) && CopyWorks(copy, staging, live)
    requires firmware.opens && firmware.status == 200 && firmware.prepared && !firmware.readFails
    requires forall i :: 0 <= i < |firmware.chunks| ==> firmware.chunks[i].writes
    requires |Body(firmware.chunks)| <= slot
    requires firmware.contentLength == |Body(firmware.chunks)| + web.contentLength
    ensures var files := [Web(web, copy), Firmware(firmware, true, true)];
            !Complete(firmware) && forall i :: 0 <= i < |files| ==> Applies(files, i, staging, live, slot)
  {
    var files := [Web(web, copy), Firmware(firmware, true, true)];
    assert files[..1][..0] == [];
    assert files[..1][0].d == web;
    AppliesIs(files, 0, staging, live, slot);
    AppliesIs(files, 1, staging, live, slot);
  }

  lemma CopyChunk(staging: seq<Byte>, live: seq<Byte>, offset: nat, n: nat)
    requires offset + n <= |staging| && offset + n <= |live| && HoldsFirst(staging, live, offset)
    ensures var after := WriteAt(live, offset, staging[offset..offset + n]);
            HoldsFirst(staging, after, offset + n)
  {
  }

  lemma HoldsNone(staging: seq<Byte>, live: seq<Byte>)
    requires live == Blank(|live|)
    ensures HoldsFirst(staging, live, 0)
  {
  }
}
