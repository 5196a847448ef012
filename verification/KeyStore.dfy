/** The authorised-key store: a RAM list written through to named slots of
    persistent storage, whose revoke compacts the slots one write at a time. */
module KeyStore {
  import opened Words

  type Key = s: seq<u8> | |s| == 32 witness seq(32, _ => 0)
  type Disk = map<string, seq<u8>>

  const KEY_MAX: nat := 64

  datatype HalError = HalOk | HalNotFound | HalFull | HalIo

  /** What happens to one storage call: it may fail before or after taking effect. */
  datatype Outcome = Success | Full | IoBefore | IoAfter

  datatype KeyStoreError = Ok | ErrFull | ErrExists | ErrNotFound | ErrStorage

  // ---- slot names ----------------------------------------------------------------------------

  function Digit(d: nat): char
    requires d < 10
  {
    ('0' as int + d) as char
  }

  /** idx_key_name: "k00" to "k63". */
  function Name(idx: nat): (s: string)
    requires idx < 100
    ensures |s| == 3
  {
    ['k', Digit(idx / 10), Digit(idx % 10)]
  }

  lemma NameInjective(i: nat, j: nat)
    requires i < 100 && j < 100 && Name(i) == Name(j)
    ensures i == j
  {
    assert Name(i)[1] == Digit(i / 10) && Name(j)[1] == Digit(j / 10);
    assert Name(i)[2] == Digit(i % 10) && Name(j)[2] == Digit(j % 10);
    assert '0' as int + i / 10 == (Digit(i / 10)) as int;
    assert '0' as int + j / 10 == (Digit(j / 10)) as int;
  }

  // ---- slots and what a reload reads -------------------------------------------------------

  datatype Slot = Absent | Blob(bytes: seq<u8>)

  function At(d: Disk, k: nat): Slot
    requires k < KEY_MAX
  {
    if Name(k) in d then Blob(d[Name(k)]) else Absent
  }

  lemma WriteSlot(d: Disk, i: nat, b: seq<u8>, k: nat)
    requires i < KEY_MAX && k < KEY_MAX
    ensures At(d[Name(i) := b], k) == if k == i then Blob(b) else At(d, k)
  {
    if Name(i) == Name(k) {
      NameInjective(i, k);
    }
  }

  lemma EraseSlot(d: Disk, i: nat, k: nat)
    requires i < KEY_MAX && k < KEY_MAX
    ensures At(d - {Name(i)}, k) == if k == i then Absent else At(d, k)
  {
    if Name(i) == Name(k) {
      NameInjective(i, k);
    }
  }

  /** The keys a start reads from slot i on: consecutive slots up to the first gap. */
  function LoadFrom(d: Disk, i: nat): (ks: seq<Key>)
    requires i <= KEY_MAX
    ensures |ks| <= KEY_MAX - i
    decreases KEY_MAX - i
  {
    if i < KEY_MAX && At(d, i).Blob? && |At(d, i).bytes| == 32 then [At(d, i).bytes] + LoadFrom(d, i + 1) else []
  }

  function Load(d: Disk): (ks: seq<Key>)
    ensures |ks| <= KEY_MAX
  {
    LoadFrom(d, 0)
  }

  /** Slots i to i+|ks|-1 hold ks, and the next one is empty or does not exist. */
  lemma {:induction false} LoadHolds(d: Disk, i: nat, ks: seq<Key>)
    requires i + |ks| <= KEY_MAX
    requires forall k: nat :: i <= k < i + |ks| ==> At(d, k) == Blob(ks[k - i])
    requires i + |ks| < KEY_MAX ==> At(d, i + |ks|) == Absent
    ensures LoadFrom(d, i) == ks
    decreases |ks|
  {
    hide Name, At;
    if |ks| == 0 {
    } else {
      assert At(d, i) == Blob(ks[0]);
      LoadHolds(d, i + 1, ks[1..]);
    }
  }

  predicate NoDup(ks: seq<Key>)
  {
    forall i, j :: 0 <= i < j < |ks| ==> ks[i] != ks[j]
  }

  function ListSlot(ks: seq<Key>, k: nat): Slot
  {
    if k < |ks| then Blob(ks[k]) else Absent
  }

  /** The slots a start looks at hold this list: its keys, then a gap. */
  ghost predicate Reads(d: Disk, ks: seq<Key>)
  {
    |ks| <= KEY_MAX && forall k: nat :: k < KEY_MAX && k <= |ks| ==> At(d, k) == ListSlot(ks, k)
  }

  lemma ReadsReload(d: Disk, ks: seq<Key>)
    requires Reads(d, ks)
    ensures Load(d) == ks
  {
    hide Name, At;
    LoadHolds(d, 0, ks);
  }

  /** A slot exists exactly below the count and holds that key. */
  ghost predicate Mirrors(d: Disk, ks: seq<Key>)
  {
    |ks| <= KEY_MAX && forall k: nat :: k < KEY_MAX ==> At(d, k) == ListSlot(ks, k)
  }

  ghost predicate Coherent(d: Disk, ks: seq<Key>)
  {
    Mirrors(d, ks) && NoDup(ks)
  }

  /** A mirrored list is what a start reads. */
  lemma MirrorsReload(d: Disk, ks: seq<Key>)
    requires Mirrors(d, ks)
    ensures Load(d) == ks
  {
    hide Name, At;
    LoadHolds(d, 0, ks);
  }

  /** Where a list first holds a key; its length when it does not. */
  function IndexOf(ks: seq<Key>, pk: Key): (i: nat)
    ensures i <= |ks| && (i < |ks| ==> ks[i] == pk)
    ensures forall j :: 0 <= j < i ==> ks[j] != pk
  {
    if |ks| == 0 || ks[0] == pk then 0 else 1 + IndexOf(ks[1..], pk)
  }

  // ---- the stages of a revoke ----------------------------------------------------------------------

  /** The storage after n operations of revoking the key in slot idx of ks. */
  function RevokeDisk(d: Disk, ks: seq<Key>, idx: nat, n: nat): (r: Disk)
    requires idx < |ks| <= KEY_MAX
  {
    if n == 0 then d
    else if n == 1 then d - {Name(idx)}
    else if n - 1 < |ks| - idx then RevokeDisk(d, ks, idx, n - 1)[Name(idx + n - 2) := ks[idx + n - 1]]
    else if n - 1 == |ks| - idx && idx < |ks| - 1 then RevokeDisk(d, ks, idx, n - 1) - {Name(|ks| - 1)}
    else RevokeDisk(d, ks, idx, n - 1)
  }

  /** How many storage operations a complete revoke makes. */
  function RevokeOps(ks: seq<Key>, idx: nat): nat
    requires idx < |ks|
  {
    if idx == |ks| - 1 then 1 else |ks| - idx + 1
  }

  function Without(ks: seq<Key>, idx: nat): (r: seq<Key>)
    requires idx < |ks|
  {
    ks[..idx] + ks[idx + 1..]
  }

  /** What a start reads after n operations. */
  function RevokeLoad(ks: seq<Key>, idx: nat, n: nat): (r: seq<Key>)
    requires idx < |ks|
    ensures |r| <= |ks|
  {
    if n == 0 then ks
    else if n == 1 then ks[..idx]
    else if n - 1 < |ks| - idx then ks[..idx] + ks[idx + 1..idx + n] + ks[idx + n - 1..]
    else Without(ks, idx)
  }

  /** Slot k after n operations. */
  function RevokeSlot(ks: seq<Key>, idx: nat, n: nat, k: nat): Slot
    requires idx < |ks|
  {
    if n == 1 && k == idx then Absent
    else if n > |ks| - idx then ListSlot(Without(ks, idx), k)
    else if idx <= k < idx + n - 1 then Blob(ks[k + 1])
    else ListSlot(ks, k)
  }

  lemma {:induction false} RevokeSlots(d: Disk, ks: seq<Key>, idx: nat, n: nat, k: nat)
    requires idx < |ks| <= KEY_MAX && n <= RevokeOps(ks, idx) && k < KEY_MAX && At(d, k) == ListSlot(ks, k)
    ensures At(RevokeDisk(d, ks, idx, n), k) == RevokeSlot(ks, idx, n, k)
  {
    hide Name, At;
    if n == 0 {
    } else {
      RevokeSlots(d, ks, idx, n - 1, k);
      var r := RevokeDisk(d, ks, idx, n - 1);
      if n == 1 {
        EraseSlot(r, idx, k);
      } else if n - 1 < |ks| - idx {
        WriteSlot(r, idx + n - 2, ks[idx + n - 1], k);
      } else {
        EraseSlot(r, |ks| - 1, k);
      }
    }
  }

  /** A start at any crash point of a revoke reads exactly this list. */
  lemma ReloadAfterCrash(d: Disk, ks: seq<Key>, idx: nat, n: nat)
    requires Reads(d, ks) && idx < |ks| && n <= RevokeOps(ks, idx)
    ensures Reads(RevokeDisk(d, ks, idx, n), RevokeLoad(ks, idx, n))
    ensures Load(RevokeDisk(d, ks, idx, n)) == RevokeLoad(ks, idx, n)
  {
    hide Name, At, RevokeDisk, Load;
    var r, l := RevokeDisk(d, ks, idx, n), RevokeLoad(ks, idx, n);
    forall k: nat | k < KEY_MAX && k <= |l|
      ensures At(r, k) == ListSlot(l, k)
    {
      RevokeSlots(d, ks, idx, n, k);
    }
    ReadsReload(r, l);
  }

  /** Slots and list agree in full at every crash point but one: behind the gap that
      the first erase leaves, old slots remain. */
  lemma CrashMirrors(d: Disk, ks: seq<Key>, idx: nat, n: nat)
    requires Mirrors(d, ks) && idx < |ks| && n <= RevokeOps(ks, idx)
    ensures Mirrors(RevokeDisk(d, ks, idx, n), RevokeLoad(ks, idx, n)) <==> !(n == 1 && idx < |ks| - 1)
  {
    hide Name, At, RevokeDisk;
    var r, l := RevokeDisk(d, ks, idx, n), RevokeLoad(ks, idx, n);
    forall k: nat | k < KEY_MAX
      ensures At(r, k) == RevokeSlot(ks, idx, n, k)
    {
      RevokeSlots(d, ks, idx, n, k);
    }
    if n == 1 && idx < |ks| - 1 {
      assert At(r, idx + 1) == Blob(ks[idx + 1]);
    } else {
      forall k: nat | k < KEY_MAX
        ensures At(r, k) == ListSlot(l, k)
      {
      }
    }
  }

  /** Power loss between any two storage operations of a revoke: a start reads only
      keys that were stored, never the revoked one once the first erase is in, and
      every other key except right after that erase, when the keys behind the
      gap are missing. */
  lemma CrashSafe(d: Disk, ks: seq<Key>, idx: nat, n: nat)
    requires Coherent(d, ks) && idx < |ks| && n <= RevokeOps(ks, idx)
    ensures forall k :: k in Load(RevokeDisk(d, ks, idx, n)) ==> k in ks
    ensures n >= 1 ==> ks[idx] !in Load(RevokeDisk(d, ks, idx, n))
    ensures n != 1 ==> forall k :: k in ks && k != ks[idx] ==> k in Load(RevokeDisk(d, ks, idx, n))
    ensures n == 1 ==> Load(RevokeDisk(d, ks, idx, n)) == ks[..idx]
  {
    hide Name, At, LoadFrom, Load, RevokeDisk, Mirrors, Reads;
    MirrorsReads(d, ks);
    ReloadAfterCrash(d, ks, idx, n);
    var r := RevokeLoad(ks, idx, n);
    if n >= 2 {
      forall i: nat | i < |ks| && i != idx
        ensures ks[i] in r
      {
        assert ks[i] == r[if i < idx then i else if n - 1 < |ks| - idx && i >= idx + n - 1 then i else i - 1];
      }
    }
  }

  /** The list read back has a duplicate exactly at the crash points between the
      first compaction write and the last erase. */
  lemma CrashDuplicates(d: Disk, ks: seq<Key>, idx: nat, n: nat)
    requires Coherent(d, ks) && idx < |ks| && n <= RevokeOps(ks, idx)
    ensures NoDup(Load(RevokeDisk(d, ks, idx, n))) <==> !(2 <= n <= |ks| - idx)
  {
    hide Name, At, LoadFrom, Load, RevokeDisk, Mirrors, Reads;
    MirrorsReads(d, ks);
    ReloadAfterCrash(d, ks, idx, n);
    var r := RevokeLoad(ks, idx, n);
    if 2 <= n <= |ks| - idx {
      assert r[idx + n - 2] == ks[idx + n - 1] == r[idx + n - 1];
    }
  }

  /** The revoked slot compacted away: slots and list agree again. */
  lemma RevokedMirrors(d: Disk, ks: seq<Key>, idx: nat)
    requires Mirrors(d, ks) && idx < |ks|
    ensures Mirrors(RevokeDisk(d, ks, idx, RevokeOps(ks, idx)), Without(ks, idx))
  {
    hide Name, At, RevokeDisk;
    var n := RevokeOps(ks, idx);
    forall k: nat | k < KEY_MAX
      ensures At(RevokeDisk(d, ks, idx, n), k) == ListSlot(Without(ks, idx), k)
    {
      RevokeSlots(d, ks, idx, n, k);
    }
  }

  /** A complete revoke removes the key if and only if it was stored once. */
  lemma RevokeComplete(d: Disk, ks: seq<Key>, idx: nat)
    requires Reads(d, ks) && idx < |ks| && (forall i :: 0 <= i < idx ==> ks[i] != ks[idx])
    ensures ks[idx] !in Load(RevokeDisk(d, ks, idx, RevokeOps(ks, idx)))
       <==> forall j :: idx < j < |ks| ==> ks[j] != ks[idx]
  {
    hide Name, At, LoadFrom, Load, RevokeDisk, Reads;
    ReloadAfterCrash(d, ks, idx, RevokeOps(ks, idx));
    var w := Without(ks, idx);
    if j :| idx < j < |ks| && ks[j] == ks[idx] {
      assert w[j - 1] == ks[idx];
    }
  }

  /** Power loss in one revoke, a restart, and a later complete revoke of any key then
      read: it is gone after the next start, except the one key whose copy the
      interrupted compaction left behind. */
  lemma RevokeAfterCrash(d: Disk, ks: seq<Key>, idx: nat, n: nat, j: nat)
    requires Coherent(d, ks) && idx < |ks| && n <= RevokeOps(ks, idx)
    requires j < |RevokeLoad(ks, idx, n)|
    requires forall i :: 0 <= i < j ==> RevokeLoad(ks, idx, n)[i] != RevokeLoad(ks, idx, n)[j]
    ensures var r, l := RevokeDisk(d, ks, idx, n), RevokeLoad(ks, idx, n);
            l[j] !in Load(RevokeDisk(r, l, j, RevokeOps(l, j))) <==> !(2 <= n <= |ks| - idx && j == idx + n - 2)
  {
    hide Name, At, LoadFrom, Load, RevokeDisk, Mirrors, Reads;
    MirrorsReads(d, ks);
    ReloadAfterCrash(d, ks, idx, n);
    var r, l := RevokeDisk(d, ks, idx, n), RevokeLoad(ks, idx, n);
    RevokeComplete(r, l, j);
    if 2 <= n <= |ks| - idx {
      assert l[idx + n - 2] == ks[idx + n - 1] == l[idx + n - 1];
    }
  }

  /** The same failure as a run: crash after the first rewrite, restart, revoke. */
  lemma DuplicateSurvives(d: Disk, ks: seq<Key>, idx: nat, n: nat)
    requires Coherent(d, ks) && idx < |ks| && 2 <= n <= |ks| - idx
    ensures var r, l, pk := RevokeDisk(d, ks, idx, n), RevokeLoad(ks, idx, n), ks[idx + n - 1];
            && Load(r) == l && IndexOf(l, pk) == idx + n - 2
            && pk in Load(RevokeDisk(r, l, idx + n - 2, RevokeOps(l, idx + n - 2)))
  {
    hide Name, At, LoadFrom, Load, RevokeDisk, Mirrors, Reads;
    MirrorsReads(d, ks);
    ReloadAfterCrash(d, ks, idx, n);
    ReadsFits(d, ks);
    var l, j := RevokeLoad(ks, idx, n), idx + n - 2;
    assert l[j] == ks[j + 1];
    forall i | 0 <= i < j
      ensures l[i] != l[j]
    {
      assert l[i] == if i < idx then ks[i] else ks[i + 1];
    }
    RevokeAfterCrash(d, ks, idx, n, j);
  }

  lemma MirrorsReads(d: Disk, ks: seq<Key>)
    requires Mirrors(d, ks)
    ensures Reads(d, ks)
  {
  }

  lemma ReadsFits(d: Disk, ks: seq<Key>)
    requires Reads(d, ks)
    ensures |ks| <= KEY_MAX
  {
  }

  /** After power loss, a restart and the addition of a key, the next start reads the
      list with that key appended if and only if no old slots were left behind the
      gap of the first erase; there they come back behind the new key. */
  lemma AddAfterCrash(d: Disk, ks: seq<Key>, idx: nat, n: nat, pk: Key)
    requires Mirrors(d, ks) && idx < |ks| && n <= RevokeOps(ks, idx) && |RevokeLoad(ks, idx, n)| < KEY_MAX
    ensures var r, l := RevokeDisk(d, ks, idx, n), RevokeLoad(ks, idx, n);
            && Load(r) == l
            && (Load(r[Name(|l|) := pk]) == l + [pk] <==> !(n == 1 && idx < |ks| - 1))
            && (n == 1 ==> Load(r[Name(|l|) := pk]) == ks[idx := pk])
  {
    hide Name, At, Load, RevokeDisk;
    MirrorsReads(d, ks);
    ReloadAfterCrash(d, ks, idx, n);
    CrashMirrors(d, ks, idx, n);
    var r, l := RevokeDisk(d, ks, idx, n), RevokeLoad(ks, idx, n);
    var filled := r[Name(|l|) := pk];
    if n == 1 {
      forall k: nat | k < KEY_MAX && k <= |ks|
        ensures At(filled, k) == ListSlot(ks[idx := pk], k)
      {
        RevokeSlots(d, ks, idx, 1, k);
        WriteSlot(r, idx, pk, k);
      }
      ReadsReload(filled, ks[idx := pk]);
    } else {
      AddMirrors(r, l, pk);
      MirrorsReads(filled, l + [pk]);
      ReadsReload(filled, l + [pk]);
    }
  }

  /** Appending a key in the next slot. */
  lemma AddMirrors(d: Disk, ks: seq<Key>, pk: Key)
    requires Mirrors(d, ks) && |ks| < KEY_MAX
    ensures Mirrors(d[Name(|ks|) := pk], ks + [pk])
  {
    hide Name, At;
    forall k: nat | k < KEY_MAX
      ensures At(d[Name(|ks|) := pk], k) == ListSlot(ks + [pk], k)
    {
      WriteSlot(d, |ks|, pk, k);
    }
  }

  // ---- a reader beside a revoke ------------------------------------------------------------------

  datatype Handed = Nothing | Given(key: Key)

  /** What an enumeration is given at index i once m steps of the RAM compaction are
      done: one step per key moved down, and a last one that lowers the count. */
  function HandedOut(ks: seq<Key>, idx: nat, m: nat, i: nat): Handed
    requires idx < |ks| && m <= |ks| - idx && i < |ks|
  {
    if m == |ks| - idx && i == |ks| - 1 then Nothing
    else if idx <= i < idx + m then Given(ks[i + 1])
    else Given(ks[i])
  }

  /** An enumeration interleaved with a revoke: at[i] steps are done when index i is
      read.  Only stored keys are handed out, the revoked one only before the first
      step, and another key behind it is missed exactly when the compaction passes
      it between two reads. */
  lemma EnumerationBesideRevoke(ks: seq<Key>, idx: nat, at: seq<nat>, j: nat)
    requires NoDup(ks) && idx < |ks| == |at| && idx < j < |ks|
    requires forall i :: 0 <= i < |at| ==> at[i] <= |ks| - idx
    requires forall i, k :: 0 <= i <= k < |at| ==> at[i] <= at[k]
    ensures forall i :: 0 <= i < |at| && HandedOut(ks, idx, at[i], i).Given? ==>
              HandedOut(ks, idx, at[i], i).key in ks && (HandedOut(ks, idx, at[i], i).key == ks[idx] ==>
                    i == idx && at[i] == 0)
    ensures (exists i :: 0 <= i < |at| && HandedOut(ks, idx, at[i], i) == Given(ks[j]))
       <==> !(at[j - 1] < j - idx < at[j])
  {
    if at[j - 1] >= j - idx {
      assert HandedOut(ks, idx, at[j - 1], j - 1) == Given(ks[j]);
    }
    if at[j] <= j - idx {
      assert HandedOut(ks, idx, at[j], j) == Given(ks[j]);
    }
  }

  lemma LoadStep(d: Disk, i: nat, ks: seq<Key>)
    requires i < KEY_MAX && Load(d) == ks + LoadFrom(d, i)
    ensures At(d, i).Blob? && |At(d, i).bytes| == 32 ==> Load(d) == ks + [At(d, i).bytes] + LoadFrom(d, i + 1)
    ensures At(d, i) == Absent ==> Load(d) == ks
  {
  }

  // ---- the storage calls ---------------------------------------------------------------------------

  /** The key namespace of the storage layer.  The oracle decides call by call
      whether it fails; the log keeps every state a power loss could leave. */
  class Hal {
    var disk: Disk
    const oracle: nat -> Outcome
    var ops: nat
    ghost var log: seq<Disk>

    constructor (d: Disk, o: nat -> Outcome)
      ensures disk == d && oracle == o && ops == 0 && log == []
    {
      disk, oracle, ops, log := d, o, 0, [];
    }

    /** storage_hal_read_blob into a 32-byte buffer: a longer blob is an error. */
    method ReadBlob(name: string) returns (e: HalError, bytes: seq<u8>)
      modifies this`ops
      ensures ops == old(ops) + 1
      ensures e == HalOk <==> oracle(old(ops)) in {Success, Full} && name in disk && |disk[name]| <= 32
      ensures e == HalNotFound <==> oracle(old(ops)) in {Success, Full} && name !in disk
      ensures e == HalOk ==> bytes == disk[name]
    {
      var o := oracle(ops);
      ops := ops + 1;
      bytes := [];
      if o == IoBefore || o == IoAfter {
        return HalIo, [];
      }
      if name !in disk {
        return HalNotFound, [];
      }
      if |disk[name]| > 32 {
        return HalIo, [];
      }
      return HalOk, disk[name];
    }

    /** storage_hal_write_blob. */
    method WriteBlob(name: string, blob: seq<u8>) returns (e: HalError)
      modifies this
      ensures ops == old(ops) + 1 && log == old(log) + [disk]
      ensures e == (match oracle(old(ops)) case Success => HalOk case Full => HalFull case _ => HalIo)
      ensures disk == if oracle(old(ops)) in {Success, IoAfter} then old(disk)[name := blob] else old(disk)
    {
      var o := oracle(ops);
      ops := ops + 1;
      if o == Success || o == IoAfter {
        disk := disk[name := blob];
      }
      log := log + [disk];
      e := match o case Success => HalOk case Full => HalFull case _ => HalIo;
    }

    /** storage_hal_erase_key: a missing entry is fine, and an erase needs no space. */
    method EraseKey(name: string) returns (e: HalError)
      modifies this
      ensures ops == old(ops) + 1 && log == old(log) + [disk]
      ensures e == if oracle(old(ops)) in {Success, Full} then HalOk else HalIo
      ensures disk == if oracle(old(ops)) == IoBefore then old(disk) else old(disk) - {name}
    {
      var o := oracle(ops);
      ops := ops + 1;
      if o != IoBefore {
        disk := disk - {name};
      }
      log := log + [disk];
      e := if o == Success || o == Full then HalOk else HalIo;
    }
  }

  // ---- the store ---------------------------------------------------------------------------------

  class Store {
    const hal: Hal
    const keys: array<Key>
    var count: nat

    ghost predicate Valid()
      reads this
    {
      keys.Length == KEY_MAX && count <= KEY_MAX
    }

    /** The RAM list, which every read is served from. */
    ghost function Contents(): seq<Key>
      reads this, keys
      requires Valid()
    {
      keys[..count]
    }

    /** No read fails and no stored key is damaged. */
    ghost predicate Readable()
      reads this, hal
    {
      && (forall n: nat :: hal.oracle(n) in {Success, Full})
      && (forall k: nat :: k < KEY_MAX && At(hal.disk, k).Blob? ==> |At(hal.disk, k).bytes| == 32)
    }

    constructor (h: Hal)
      ensures Valid() && hal == h && Contents() == [] && fresh(keys)
    {
      hal, count := h, 0;
      keys := new Key[KEY_MAX](_ => seq(32, _ => 0));
    }

    /** key_store_init: the list becomes what storage holds, or the start fails. */
    method Init(halInit: HalError) returns (r: KeyStoreError)
      requires Valid()
      modifies this, keys, hal`ops
      ensures Valid() && (r == Ok || r == ErrStorage)
      ensures r == Ok ==> Contents() == Load(hal.disk)
      ensures halInit == HalOk ==> Contents() <= Load(hal.disk)
      ensures halInit != HalOk ==> r == ErrStorage && Contents() == old(Contents())
      ensures r == Ok ==> forall k: nat :: k <= count && k < KEY_MAX ==> At(hal.disk, k).Blob? == (k < count)
      ensures halInit == HalOk && Readable() ==> r == Ok
    {
      hide Name, LoadFrom;
      if halInit != HalOk {
        return ErrStorage;
      }
      count := 0;
      for i := 0 to KEY_MAX
        invariant Valid() && count == i && hal.disk == old(hal.disk)
        invariant Load(hal.disk) == keys[..i] + LoadFrom(hal.disk, i)
        invariant forall k: nat :: k < i ==> At(hal.disk, k).Blob?
      {
        LoadStep(hal.disk, i, keys[..i]);
        var e, blob := hal.ReadBlob(Name(i));
        if e == HalNotFound {
          return Ok;
        }
        if e != HalOk {
          return ErrStorage;
        }
        if |blob| != 32 {
          return ErrStorage;
        }
        keys[i] := blob;
        count := i + 1;
      }
      FullLoad(hal.disk);
      return Ok;
    }

    /** key_store_contains. */
    method Contains(pk: Key) returns (b: bool)
      requires Valid()
      ensures b <==> pk in Contents()
    {
      for i := 0 to count
        invariant forall j :: 0 <= j < i ==> keys[j] != pk
      {
        if keys[i] == pk {
          assert keys[..count][i] == pk;
          return true;
        }
      }
      return false;
    }

    /** key_store_get. */
    method Get(index: nat) returns (found: bool, pk: Key)
      requires Valid()
      ensures found <==> index < |Contents()|
      ensures found ==> pk == Contents()[index]
    {
      if index >= count {
        return false, seq(32, _ => 0);
      }
      return true, keys[index];
    }

    /** key_store_add: storage first, and the list only when storage took the key. */
    method Add(pk: Key) returns (r: KeyStoreError)
      requires Valid()
      modifies this, keys, hal
      ensures Valid()
      ensures r == Ok ==> Contents() == old(Contents()) + [pk] && pk !in old(Contents())
      ensures r == Ok ==> hal.disk == old(hal.disk)[Name(old(count)) := pk]
      ensures r != Ok ==> Contents() == old(Contents())
      ensures r != Ok ==>
            || hal.disk == old(hal.disk)
            || (r == ErrStorage && count < KEY_MAX && hal.disk == old(hal.disk)[Name(count) := pk])
      ensures r == ErrExists <==> old(count) < KEY_MAX && pk in old(Contents())
      ensures old(count) == KEY_MAX ==> r == ErrFull
      ensures forall n: nat {:trigger hal.oracle(n)} ::
                (n == old(hal.ops) && old(count) < KEY_MAX && pk !in old(Contents())) ==>
                  r == (match hal.oracle(n) case Success => Ok case Full => ErrFull case _ => ErrStorage)
    {
      hide Name;
      if count >= KEY_MAX {
        return ErrFull;
      }
      var known := Contains(pk);
      if known {
        return ErrExists;
      }
      var e := hal.WriteBlob(Name(count), pk);
      if e == HalFull {
        return ErrFull;
      }
      if e != HalOk {
        return ErrStorage;
      }
      keys[count] := pk;
      count := count + 1;
      return Ok;
    }

    /** The search loop of revoke. */
    method Find(pk: Key) returns (idx: nat)
      requires Valid()
      ensures idx == IndexOf(Contents(), pk)
    {
      idx := 0;
      while idx < count && keys[idx] != pk
        invariant idx <= count && forall j :: 0 <= j < idx ==> keys[j] != pk
      {
        idx := idx + 1;
      }
    }

    /** The rewriting loop of revoke: each key moves down one slot. */
    method Compact(idx: nat, ghost d: Disk) returns (e: HalError, ghost trail: seq<Disk>)
      requires Valid() && idx < count - 1 && hal.disk == RevokeDisk(d, Contents(), idx, 1)
      modifies hal
      ensures hal.log == old(hal.log) + trail && Trail(d, Contents(), idx, 1, trail)
      ensures |trail| <= count - 1 - idx
      ensures e == HalOk ==> |trail| == count - 1 - idx && hal.disk == RevokeDisk(d, Contents(), idx, count - idx)
    {
      hide Name, RevokeDisk;
      e, trail := HalOk, [];
      for i := idx to count - 1
        invariant hal.log == old(hal.log) + trail && |trail| == i - idx
        invariant hal.disk == RevokeDisk(d, Contents(), idx, i - idx + 1)
        invariant Trail(d, Contents(), idx, 1, trail)
      {
        RevokeWrite(d, Contents(), idx, i);
        e := hal.WriteBlob(Name(i), keys[i + 1]);
        trail := trail + [hal.disk];
        if e != HalOk {
          return;
        }
      }
      e := HalOk;
    }

    /** The compaction of revoke: the keys behind the gap move down, in storage and
        then in the list. */
    method CloseGap(idx: nat, ghost d: Disk) returns (e: HalError, ghost trail: seq<Disk>)
      requires Valid() && idx < count - 1 && hal.disk == RevokeDisk(d, Contents(), idx, 1)
      modifies keys, hal
      ensures hal.log == old(hal.log) + trail && Trail(d, old(Contents()), idx, 1, trail)
      ensures |trail| <= count - idx
      ensures keys[..count - 1] == if e == HalOk then Without(old(Contents()), idx) else old(keys[..count - 1])
      ensures e != HalOk ==> Contents() == old(Contents())
      ensures e == HalOk && (forall n: nat :: hal.oracle(n) in {Success, Full}) ==>
                hal.disk == RevokeDisk(d, old(Contents()), idx, count - idx + 1)
    {
      hide Name, RevokeDisk;
      e, trail := Compact(idx, d);
      if e != HalOk {
        return;
      }
      RevokeErases(d, Contents(), idx);
      var _ := hal.EraseKey(Name(count - 1));
      trail := trail + [hal.disk];
      MoveDown(idx);
    }

    /** key_store_revoke.  The trail shows what a power loss at any point leaves. */
    method Revoke(pk: Key) returns (r: KeyStoreError, ghost trail: seq<Disk>)
      requires Valid()
      modifies this, keys, hal
      ensures Valid() && hal.log == old(hal.log) + trail
      ensures pk !in old(Contents()) <==> r == ErrNotFound
      ensures r == ErrNotFound ==> trail == [] && hal.disk == old(hal.disk) && Contents() == old(Contents())
      ensures r != ErrNotFound ==> Revoked(old(hal.disk), old(Contents()), IndexOf(old(Contents()), pk), r, trail,
          Contents())
      ensures r == Ok && (forall n: nat :: hal.oracle(n) in {Success, Full}) ==>
                RevokedDisk(old(hal.disk), old(Contents()), IndexOf(old(Contents()), pk), hal.disk)
    {
      hide Name, IndexOf, RevokeDisk, Trail, Without;
      ghost var ks, d := Contents(), hal.disk;
      var idx := Find(pk);
      if idx >= count {
        return ErrNotFound, [];
      }
      assert ks[idx] == pk;
      FirstErase(d, ks, idx);
      var e := hal.EraseKey(Name(idx));
      trail := [hal.disk];
      if e != HalOk {
        return ErrStorage, trail;
      }
      if idx < count - 1 {
        ghost var more;
        e, more := CloseGap(idx, d);
        TrailJoin(d, ks, idx, trail, more);
        trail := trail + more;
        if e != HalOk {
          return ErrStorage, trail;
        }
      }
      count := count - 1;
      return Ok, trail;
    }

    /** memmove of the keys behind the removed one. */
    method MoveDown(idx: nat)
      requires Valid() && idx < count - 1
      modifies keys
      ensures keys[..count - 1] == Without(old(Contents()), idx)
    {
      forall k | idx <= k < count - 1 {
        keys[k] := keys[k + 1];
      }
    }
  }

  /** Entry k is the storage after n + k operations of the revoke, or one more. */
  ghost predicate Trail(d: Disk, ks: seq<Key>, idx: nat, n: nat, trail: seq<Disk>)
    requires idx < |ks| <= KEY_MAX
  {
    forall k: nat :: k < |trail| ==>
      trail[k] == RevokeDisk(d, ks, idx, n + k) || trail[k] == RevokeDisk(d, ks, idx, n + k + 1)
  }

  /** What a revoke of the key in slot idx did to the list and to storage. */
  ghost predicate Revoked(d: Disk, ks: seq<Key>, idx: nat, r: KeyStoreError, trail: seq<Disk>, now: seq<Key>)
  {
    && idx < |ks| <= KEY_MAX && (r == Ok || r == ErrStorage)
    && |trail| <= RevokeOps(ks, idx) && Trail(d, ks, idx, 0, trail)
    && now == if r == Ok then Without(ks, idx) else ks
  }

  ghost predicate RevokedDisk(d: Disk, ks: seq<Key>, idx: nat, now: Disk)
  {
    idx < |ks| <= KEY_MAX && now == RevokeDisk(d, ks, idx, RevokeOps(ks, idx))
  }

  lemma FirstErase(d: Disk, ks: seq<Key>, idx: nat)
    requires idx < |ks| <= KEY_MAX
    ensures RevokeDisk(d, ks, idx, 1) == d - {Name(idx)}
    ensures Trail(d, ks, idx, 0, [d]) && Trail(d, ks, idx, 0, [d - {Name(idx)}])
    ensures Trail(d, ks, idx, 1, [])
    ensures idx == |ks| - 1 ==> Without(ks, idx) == ks[..idx]
  {
    hide Name;
  }

  lemma TrailJoin(d: Disk, ks: seq<Key>, idx: nat, first: seq<Disk>, more: seq<Disk>)
    requires idx < |ks| <= KEY_MAX && Trail(d, ks, idx, 0, first) && |first| == 1 && Trail(d, ks, idx, 1, more)
    ensures Trail(d, ks, idx, 0, first + more)
  {
    hide RevokeDisk;
    var t := first + more;
    forall k: nat | k < |t|
      ensures t[k] == RevokeDisk(d, ks, idx, k) || t[k] == RevokeDisk(d, ks, idx, k + 1)
    {
      if k >= 1 {
        assert t[k] == more[k - 1];
        assert 1 + (k - 1) == k;
      }
    }
  }

  lemma RevokeWrite(d: Disk, ks: seq<Key>, idx: nat, i: nat)
    requires idx <= i < |ks| - 1 && |ks| <= KEY_MAX
    ensures RevokeDisk(d, ks, idx, i - idx + 2) == RevokeDisk(d, ks, idx, i - idx + 1)[Name(i) := ks[i + 1]]
  {
    hide Name;
  }

  lemma RevokeErases(d: Disk, ks: seq<Key>, idx: nat)
    requires idx < |ks| <= KEY_MAX
    ensures RevokeDisk(d, ks, idx, 0) == d && RevokeDisk(d, ks, idx, 1) == d - {Name(idx)}
    ensures idx < |ks| - 1 ==>
      RevokeDisk(d, ks, idx, |ks| - idx + 1) == RevokeDisk(d, ks, idx, |ks| - idx) - {Name(|ks| - 1)}
  {
    hide Name;
  }

  lemma FullLoad(d: Disk)
    ensures LoadFrom(d, KEY_MAX) == []
  {
  }

  /** Power loss anywhere in a revoke, whether or not storage failed on the way: a
      start reads only stored keys, and not the revoked one once storage changed. */
  lemma RevokeTrailSafe(d: Disk, ks: seq<Key>, idx: nat, r: KeyStoreError, trail: seq<Disk>, now: seq<Key>, k: nat)
    requires Coherent(d, ks) && Revoked(d, ks, idx, r, trail, now) && k < |trail|
    ensures forall x :: x in Load(trail[k]) ==> x in ks
    ensures trail[k] != d ==> ks[idx] !in Load(trail[k])
  {
    hide Load, RevokeDisk, Coherent, NoDup;
    var n := if trail[k] == RevokeDisk(d, ks, idx, k) then k else k + 1;
    StartsUnchanged(d, ks, idx);
    CrashSafe(d, ks, idx, n);
  }

  lemma StartsUnchanged(d: Disk, ks: seq<Key>, idx: nat)
    requires idx < |ks| <= KEY_MAX
    ensures RevokeDisk(d, ks, idx, 0) == d
  {
  }

  // ---- whole runs ------------------------------------------------------------------------------------

  datatype Op = OpAdd(pk: Key) | OpRevoke(pk: Key) | OpRestart

  /** The list after a run, from what each call reported. */
  function Replay(ks: seq<Key>, ops: seq<Op>, results: seq<KeyStoreError>): (r: seq<Key>)
    requires |results| <= |ops|
  {
    if |results| == 0 then ks
    else
      var n := |results| - 1;
      var before := Replay(ks, ops, results[..n]);
      if results[n] != Ok then before
      else match ops[n]
        case OpAdd(pk) => before + [pk]
        case OpRevoke(pk) => if pk in before then Without(before, IndexOf(before, pk)) else before
        case OpRestart => before
  }

  lemma AddCoherent(d: Disk, ks: seq<Key>, pk: Key)
    requires Coherent(d, ks) && |ks| < KEY_MAX && pk !in ks
    ensures Coherent(d[Name(|ks|) := pk], ks + [pk])
  {
    hide Mirrors;
    AddMirrors(d, ks, pk);
  }

  lemma RevokeCoherent(d: Disk, ks: seq<Key>, idx: nat)
    requires Coherent(d, ks) && idx < |ks|
    ensures Coherent(RevokeDisk(d, ks, idx, RevokeOps(ks, idx)), Without(ks, idx))
  {
    hide Mirrors, RevokeDisk;
    RevokedMirrors(d, ks, idx);
  }

  lemma CoherentReadable(d: Disk, ks: seq<Key>)
    requires Coherent(d, ks)
    ensures forall k: nat :: k < KEY_MAX && At(d, k).Blob? ==> |At(d, k).bytes| == 32
    ensures Load(d) == ks
  {
    hide Name, At, LoadFrom;
    MirrorsReload(d, ks);
  }

  /** One call of a run in which a write may find storage full but nothing else fails. */
  method Step(s: Store, op: Op) returns (r: KeyStoreError)
    requires s.Valid() && Coherent(s.hal.disk, s.Contents())
    requires forall n: nat :: s.hal.oracle(n) in {Success, Full}
    modifies s, s.keys, s.hal
    ensures s.Valid()
    ensures !(op.OpRevoke? && r == ErrStorage) ==>
              && Coherent(s.hal.disk, s.Contents())
              && s.Contents() == Replay(old(s.Contents()), [op], [r])
    ensures op.OpRestart? ==> r == Ok
  {
    hide Name, At, Load, Mirrors, NoDup, RevokeDisk, IndexOf, Without, Trail;
    ghost var d, ks := s.hal.disk, s.Contents();
    ReplayOne(ks, op);
    match op {
      case OpAdd(pk) =>
        assert s.hal.oracle(s.hal.ops) in {Success, Full};
        r := s.Add(pk);
        if r == Ok {
          AddCoherent(d, ks, pk);
        }
      case OpRevoke(pk) =>
        ghost var trail;
        r, trail := s.Revoke(pk);
        if r == Ok {
          RevokeCoherent(d, ks, IndexOf(ks, pk));
        }
      case OpRestart =>
        CoherentReadable(d, ks);
        r := s.Init(HalOk);
    }
  }

  lemma ReplayOne(ks: seq<Key>, op: Op)
    ensures forall r :: r != Ok ==> Replay(ks, [op], [r]) == ks
    ensures op.OpAdd? ==> Replay(ks, [op], [Ok]) == ks + [op.pk]
    ensures op.OpRevoke? && op.pk in ks ==> Replay(ks, [op], [Ok]) == Without(ks, IndexOf(ks, op.pk))
    ensures op.OpRestart? ==> Replay(ks, [op], [Ok]) == ks
  {
    forall r
      ensures Replay(ks, [op], [r][..0]) == ks
    {
      assert [r][..0] == [];
    }
  }

  /** A crash-free run: at every point a restart reads exactly the RAM list, which
      stays free of duplicates and within 64 keys.  A run ends early when a
      revoke reports that storage failed. */
  method Run(s: Store, ops: seq<Op>) returns (results: seq<KeyStoreError>)
    requires s.Valid() && Coherent(s.hal.disk, s.Contents())
    requires forall n: nat :: s.hal.oracle(n) in {Success, Full}
    modifies s, s.keys, s.hal
    ensures s.Valid() && |results| <= |ops|
    ensures |results| == |ops| ==>
              && s.Contents() == Replay(old(s.Contents()), ops, results)
              && Load(s.hal.disk) == s.Contents() && NoDup(s.Contents()) && |s.Contents()| <= KEY_MAX
    ensures |results| < |ops| ==> ops[|results|].OpRevoke?
  {
    hide Name, At, Load, Mirrors, RevokeDisk, IndexOf, Without;
    results := [];
    for i := 0 to |ops|
      invariant s.Valid() && Coherent(s.hal.disk, s.Contents())
      invariant |results| == i && s.Contents() == Replay(old(s.Contents()), ops, results)
    {
      ghost var before := s.Contents();
      var r := Step(s, ops[i]);
      if ops[i].OpRevoke? && r == ErrStorage {
        return;
      }
      ReplaySnoc(old(s.Contents()), ops, results, r);
      results := results + [r];
    }
    CoherentReadable(s.hal.disk, s.Contents());
  }

  lemma ReplaySnoc(ks: seq<Key>, ops: seq<Op>, results: seq<KeyStoreError>, r: KeyStoreError)
    requires |results| < |ops|
    ensures Replay(ks, ops, results + [r]) == Replay(Replay(ks, ops, results), [ops[|results|]], [r])
  {
    assert (results + [r])[..|results|] == results;
    assert [r][..0] == [];
  }
}
