/**
  The alternate multi-keyboard tracker `KBSET`.

  Up to `KBNUM` keyboards are told apart by vendor and product id. Each report
  is attributed to the last table entry whose ids match, or appended at
  `totalKb` when none does; it counts as a change unless its bytes equal the
  entry's stored copy, in which case nothing but the change flag is written.
  All arrays are zero at start, as for a statically allocated object; a
  successful enumeration resets the count and fills the stored copies with
  0xFF but keeps the recorded identities.
 */
module KeyboardSets {
  import opened Bytes

  /** Keyboards the table can hold. */
  const KBNUM: nat := 3
  /** Bytes per stored report row. */
  const ROW_SIZE: nat := 64
  /** The value of `Current` when the lookup finds no entry. */
  const NOT_FOUND: nat := 0xFF

  /** The identity at entry `i` is (`vid`, `pid`). */
  predicate EntryMatches(vids: seq<u16>, pids: seq<u16>, i: nat, vid: u16, pid: u16)
    requires i < |vids| && i < |pids|
  {
    pids[i] == pid && vids[i] == vid
  }

  /** The highest entry below `n` with this identity, or `NOT_FOUND`. */
  function LastMatchUpTo(vids: seq<u16>, pids: seq<u16>, vid: u16, pid: u16, n: nat): nat
    requires n <= |vids| && n <= |pids|
  {
    if n == 0 then NOT_FOUND
    else if EntryMatches(vids, pids, n - 1, vid, pid) then n - 1
    else LastMatchUpTo(vids, pids, vid, pid, n - 1)
  }

  /** The result of the lookup over all `KBNUM` entries. */
  function LastMatch(vids: seq<u16>, pids: seq<u16>, vid: u16, pid: u16): nat
    requires |vids| == KBNUM && |pids| == KBNUM
  {
    LastMatchUpTo(vids, pids, vid, pid, KBNUM)
  }

  /** The lookup yields `NOT_FOUND` exactly when no entry matches, and
      otherwise a matching entry above which no entry matches. */
  lemma {:induction false} LastMatchUpToSpec(vids: seq<u16>, pids: seq<u16>, vid: u16, pid: u16, n: nat)
    requires n <= |vids| && n <= |pids| && n <= KBNUM
    ensures var r := LastMatchUpTo(vids, pids, vid, pid, n);
      && (r == NOT_FOUND <==> forall i :: 0 <= i < n ==> !EntryMatches(vids, pids, i, vid, pid))
      && (r != NOT_FOUND ==> r < n && EntryMatches(vids, pids, r, vid, pid))
      && (forall i :: 0 <= i < n && EntryMatches(vids, pids, i, vid, pid) ==> r != NOT_FOUND && i <= r)
  {
    if n > 0 {
      LastMatchUpToSpec(vids, pids, vid, pid, n - 1);
    }
  }

  /** Once an unseen identity has been written at entry `t`, the lookup finds
      it there. */
  lemma AppendedIdentityFound(vids: seq<u16>, pids: seq<u16>, vid: u16, pid: u16, t: nat)
    requires |vids| == KBNUM && |pids| == KBNUM && t < KBNUM
    requires LastMatch(vids, pids, vid, pid) == NOT_FOUND
    ensures LastMatch(vids[t := vid], pids[t := pid], vid, pid) == t
  {
    LastMatchUpToSpec(vids, pids, vid, pid, KBNUM);
    var vids', pids' := vids[t := vid], pids[t := pid];
    LastMatchUpToSpec(vids', pids', vid, pid, KBNUM);
    assert EntryMatches(vids', pids', t, vid, pid);
    forall i | 0 <= i < KBNUM && i != t
      ensures !EntryMatches(vids', pids', i, vid, pid)
    {
      assert !EntryMatches(vids, pids, i, vid, pid);
    }
  }

  /** `memcmp(a[r], buf, |buf|) == 0` */
  predicate RowMatches(a: array2<byte>, r: nat, buf: seq<byte>)
    requires r < a.Length0 && |buf| <= a.Length1
    reads a
  {
    forall j :: 0 <= j < |buf| ==> a[r, j] == buf[j]
  }

  class KbSet {
    /** The entry the last report was attributed to. */
    var current: nat
    /** Entries appended since the last enumeration. */
    var totalKb: nat
    const changed: array<bool>
    const bufferSize: array<nat>
    const buffer: array2<byte>
    const pid: array<u16>
    const vid: array<u16>
    const bufferOld: array2<byte>

    ghost predicate Valid()
      reads this
    {
      && changed.Length == KBNUM && bufferSize.Length == KBNUM
      && pid.Length == KBNUM && vid.Length == KBNUM
      && buffer.Length0 == KBNUM && buffer.Length1 == ROW_SIZE
      && bufferOld.Length0 == KBNUM && bufferOld.Length1 == ROW_SIZE
      && pid != vid && buffer != bufferOld
      && totalKb <= KBNUM
    }

    /** Every field starts at zero. */
    constructor ()
      ensures Valid()
      ensures fresh(changed) && fresh(bufferSize) && fresh(buffer) && fresh(pid) && fresh(vid) && fresh(bufferOld)
      ensures current == 0 && totalKb == 0
      ensures forall i :: 0 <= i < KBNUM ==> !changed[i] && bufferSize[i] == 0 && pid[i] == 0 && vid[i] == 0
      ensures forall r, j :: 0 <= r < KBNUM && 0 <= j < ROW_SIZE ==> buffer[r, j] == 0 && bufferOld[r, j] == 0
    {
      current := 0;
      totalKb := 0;
      changed := new bool[KBNUM](_ => false);
      bufferSize := new nat[KBNUM](_ => 0);
      buffer := new byte[KBNUM, ROW_SIZE]((_, _) => 0);
      pid := new u16[KBNUM](_ => 0);
      vid := new u16[KBNUM](_ => 0);
      bufferOld := new byte[KBNUM, ROW_SIZE]((_, _) => 0);
    }

    /** The enumeration callback: forgets the count and fills every stored
        copy with 0xFF, keeping identities, buffers and flags. */
    method OnInitSuccessful()
      requires Valid()
      modifies this`totalKb, bufferOld
      ensures Valid()
      ensures totalKb == 0
      ensures forall r, j :: 0 <= r < KBNUM && 0 <= j < ROW_SIZE ==> bufferOld[r, j] == 0xFF
      ensures unchanged(changed, bufferSize, buffer, pid, vid)
    {
      totalKb := 0;
      for r := 0 to KBNUM
        invariant totalKb == 0
        invariant forall r', j :: 0 <= r' < r && 0 <= j < ROW_SIZE ==> bufferOld[r', j] == 0xFF
      {
        for j := 0 to ROW_SIZE
          invariant totalKb == 0
          invariant forall r', j' :: 0 <= r' < r && 0 <= j' < ROW_SIZE ==> bufferOld[r', j'] == 0xFF
          invariant forall j' :: 0 <= j' < j ==> bufferOld[r, j'] == 0xFF
        {
          bufferOld[r, j] := 0xFF;
        }
      }
    }

    /** The lookup loop: the last entry with this identity, or `NOT_FOUND`. */
    method Lookup(hidVid: u16, hidPid: u16) returns (index: nat)
      requires Valid()
      ensures index == LastMatch(vid[..], pid[..], hidVid, hidPid)
      ensures index == NOT_FOUND <==> forall i :: 0 <= i < KBNUM ==> !EntryMatches(vid[..], pid[..], i, hidVid, hidPid)
      ensures index != NOT_FOUND ==> index < KBNUM && EntryMatches(vid[..], pid[..], index, hidVid, hidPid)
      ensures forall i :: 0 <= i < KBNUM && EntryMatches(vid[..], pid[..], i, hidVid, hidPid) ==> index != NOT_FOUND && i <= index
    {
      index := NOT_FOUND;
      for i := 0 to KBNUM
        invariant index == LastMatchUpTo(vid[..], pid[..], hidVid, hidPid, i)
      {
        if pid[i] == hidPid && vid[i] == hidVid {
          index := i;
        }
      }
      LastMatchUpToSpec(vid[..], pid[..], hidVid, hidPid, KBNUM);
    }

    /** The report callback for a report `buf` from the keyboard with this
        identity. The caller guarantees a free entry for an unseen identity
        and a report that fits a row. */
    method ParseHidData(hidVid: u16, hidPid: u16, buf: seq<byte>)
      requires Valid()
      requires |buf| <= ROW_SIZE
      requires LastMatch(vid[..], pid[..], hidVid, hidPid) != NOT_FOUND || totalKb < KBNUM
      modifies this`current, this`totalKb, changed, bufferSize, pid, vid, buffer, bufferOld
      ensures Valid()
      ensures var found := old(LastMatch(vid[..], pid[..], hidVid, hidPid));
        && current == (if found != NOT_FOUND then found else old(totalKb))
        && totalKb == (if found != NOT_FOUND then old(totalKb) else old(totalKb) + 1)
        && vid[..] == (if found != NOT_FOUND then old(vid[..]) else old(vid[..])[current := hidVid])
        && pid[..] == (if found != NOT_FOUND then old(pid[..]) else old(pid[..])[current := hidPid])
        && bufferSize[..] == (if found != NOT_FOUND then old(bufferSize[..]) else old(bufferSize[..])[current := |buf|])
      ensures current < KBNUM
      ensures var c := current; changed[..] == old(changed[..])[c := !old(RowMatches(bufferOld, c, buf))]
      ensures forall r, j :: 0 <= r < KBNUM && 0 <= j < ROW_SIZE ==>
        bufferOld[r, j] == if r == current && j < |buf| then buf[j] else old(bufferOld[r, j])
      ensures forall r, j :: 0 <= r < KBNUM && 0 <= j < ROW_SIZE ==>
        buffer[r, j] == if r == current && j < |buf| && changed[current] then buf[j] else old(buffer[r, j])
    {
      current := Lookup(hidVid, hidPid);
      if current == NOT_FOUND {
        current := totalKb;
        pid[current] := hidPid;
        vid[current] := hidVid;
        bufferSize[current] := |buf|;
        totalKb := totalKb + 1;
      }
      if RowMatches(bufferOld, current, buf) {
        changed[current] := false;
      } else {
        forall j | 0 <= j < |buf| {
          buffer[current, j] := buf[j];
        }
        changed[current] := true;
        forall j | 0 <= j < |buf| {
          bufferOld[current, j] := buf[j];
        }
      }
    }
  }

  /** The same report delivered twice in a row: the second delivery goes to
      the same entry and is not a change. */
  method RepeatedReport(kb: KbSet, hidVid: u16, hidPid: u16, buf: seq<byte>)
    requires kb.Valid()
    requires |buf| <= ROW_SIZE
    requires LastMatch(kb.vid[..], kb.pid[..], hidVid, hidPid) != NOT_FOUND || kb.totalKb < KBNUM
    modifies kb`current, kb`totalKb, kb.changed, kb.bufferSize, kb.pid, kb.vid, kb.buffer, kb.bufferOld
    ensures kb.Valid()
    ensures kb.current < KBNUM && !kb.changed[kb.current]
  {
    ghost var before := LastMatch(kb.vid[..], kb.pid[..], hidVid, hidPid);
    kb.ParseHidData(hidVid, hidPid, buf);
    var first := kb.current;
    if before == NOT_FOUND {
      AppendedIdentityFound(old(kb.vid[..]), old(kb.pid[..]), hidVid, hidPid, first);
    }
    kb.ParseHidData(hidVid, hidPid, buf);
    assert kb.current == first;
  }

  /** The first report after an enumeration counts as a change exactly when
      one of its bytes is not 0xFF. */
  method FirstReportAfterInit(kb: KbSet, hidVid: u16, hidPid: u16, buf: seq<byte>)
    requires kb.Valid()
    requires |buf| <= ROW_SIZE
    modifies kb`current, kb`totalKb, kb.changed, kb.bufferSize, kb.pid, kb.vid, kb.buffer, kb.bufferOld
    ensures kb.Valid()
    ensures kb.current < KBNUM
    ensures kb.changed[kb.current] <==> exists j :: 0 <= j < |buf| && buf[j] != 0xFF
  {
    kb.OnInitSuccessful();
    kb.ParseHidData(hidVid, hidPid, buf);
  }
}
