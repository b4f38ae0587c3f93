/** The mount protocol of wasabi-fs on the main and backup header blocks (modules/wasabi-fs/src/fs.rs,
    modules/wasabi-fs/src/fs_structs.rs): any number of clients open, flush and close one device, one
    device access per step. */
module Mount {
  import opened Machine

  const MAIN_HEADER_BLOCK: nat := 0

  datatype Status = Uninitialized | Ready

  datatype Transient = Transient(mountCount: nat, openInWriteMode: bool, status: Status)

  /** `MainHeader`; `known` stands for the magic and version fields being the expected constants. */
  datatype Header = Header(known: bool, uuid: nat, root: nat, freeBlocks: nat, backupHeader: nat,
                           name: Option<nat>, transient: Option<Transient>, nextFileId: nat)

  /** What one mount hands on to the next. */
  datatype Core = Core(root: nat, freeBlocks: nat, nextFileId: nat)

  function CoreOf(h: Header): Core {
    Core(h.root, h.freeBlocks, h.nextFileId)
  }

  /** The copy of a header that goes to the backup block. */
  function BackupOf(h: Header): Header {
    h.(transient := None, backupHeader := MAIN_HEADER_BLOCK)
  }

  predicate MatchesBackup(h: Header, backup: Header) {
    BackupOf(h) == backup
  }

  /** `HeaderData` and the backup address: what a mounted client holds in memory. */
  datatype Data = Data(uuid: nat, root: nat, freeBlocks: nat, backupHeader: nat, name: Option<nat>,
                       status: Status, nextFileId: nat)

  function DataOf(h: Header): Data
    requires h.transient.Some?
  {
    Data(h.uuid, h.root, h.freeBlocks, h.backupHeader, h.name, h.transient.value.status, h.nextFileId)
  }

  /** The header `write_header` builds: always with mount count 1. */
  function HeaderOf(d: Data): Header {
    Header(true, d.uuid, d.root, d.freeBlocks, d.backupHeader, d.name, Some(Transient(1, true, d.status)), d.nextFileId)
  }

  /** Where a client stands. The header carried by an opening or closing client is the block it has read. */
  datatype Client =
    | Idle
    | HeaderRead(header: Header)
    | BackupChecked(header: Header)
    | Mounted(data: Data)
    | BackupWritten(data: Data, closing: bool)
    | CloseFlushed(data: Data)
    | CloseRead(data: Data, header: Header)

  predicate HoldsMount(c: Client) {
    c.Mounted? || c.BackupWritten? || c.CloseFlushed? || c.CloseRead?
  }

  /** The device headers, the clients, every file id handed out so far, and the core of the last completed
      flush. The last two are history. */
  datatype State = State(main: Header, backup: Header, clients: map<nat, Client>, issued: seq<nat>, flushed: Core)

  function Move(s: State, c: nat, client: Client): State {
    s.(clients := s.clients[c := client])
  }

  // ----- Steps of client `c` -----

  /** `open_internal`: read the main header and check it. */
  predicate ReadHeader(s: State, t: State, c: nat)
    requires c in s.clients
  {
    && s.clients[c].Idle?
    && s.main.known && s.main.transient.Some? && s.main.transient.value.status == Ready
    && t == Move(s, c, HeaderRead(s.main))
  }

  /** Read the backup header, compare, and check that nobody has the device mounted. */
  predicate CheckBackup(s: State, t: State, c: nat)
    requires c in s.clients
  {
    && s.clients[c].HeaderRead?
    && var h := s.clients[c].header;
       && h.transient.Some? && h.transient.value.mountCount == 0 && MatchesBackup(h, s.backup)
       && t == Move(s, c, BackupChecked(h))
  }

  function OpenedHeader(h: Header): Header {
    if h.transient.Some?
    then h.(transient := Some(h.transient.value.(mountCount := h.transient.value.mountCount + 1, openInWriteMode := true)))
    else h
  }

  /** Compare-exchange of the main header succeeds: the client is mounted with what it had read. */
  predicate ExchangeToOpen(s: State, t: State, c: nat)
    requires c in s.clients
  {
    && s.clients[c].BackupChecked?
    && var h := s.clients[c].header;
       && h.transient.Some? && s.main == h
       && t == Move(s, c, Mounted(DataOf(h))).(main := OpenedHeader(h))
  }

  /** Any check fails, the device reports an error, or the compare-exchange finds other contents: the client gives up. */
  predicate OpenFails(s: State, t: State, c: nat)
    requires c in s.clients
  {
    && (s.clients[c].Idle? || s.clients[c].HeaderRead? || (s.clients[c].BackupChecked? && s.main != s.clients[c].header))
    && t == Move(s, c, Idle)
  }

  /** `get_and_inc_file_id`. The successor of the largest id does not exist. */
  predicate TakeFileId(s: State, t: State, c: nat)
    requires c in s.clients
  {
    && s.clients[c].Mounted?
    && var d := s.clients[c].data;
       && d.nextFileId < U64_MAX
       && t == Move(s, c, Mounted(d.(nextFileId := d.nextFileId + 1))).(issued := s.issued + [d.nextFileId])
  }

  /** `flush`, alone or as the first part of `close`: the tree and the free list have been written elsewhere and
      have new roots; the backup header is written first. */
  predicate WriteBackup(s: State, t: State, c: nat, root: nat, freeBlocks: nat, closing: bool)
    requires c in s.clients
  {
    && s.clients[c].Mounted?
    && var d := s.clients[c].data.(root := root, freeBlocks := freeBlocks);
       t == Move(s, c, BackupWritten(d, closing)).(backup := BackupOf(HeaderOf(d)))
  }

  /** Then the main header; this completes the flush. */
  predicate WriteMain(s: State, t: State, c: nat)
    requires c in s.clients
  {
    && s.clients[c].BackupWritten?
    && var d := s.clients[c].data;
       t == Move(s, c, if s.clients[c].closing then CloseFlushed(d) else Mounted(d))
              .(main := HeaderOf(d), flushed := CoreOf(HeaderOf(d)))
  }

  /** `close`, after its flush: read the header back. */
  predicate ReadToClose(s: State, t: State, c: nat)
    requires c in s.clients
  {
    && s.clients[c].CloseFlushed?
    && t == Move(s, c, CloseRead(s.clients[c].data, s.main))
  }

  function ClosedHeader(h: Header): Header {
    if h.transient.Some? && h.transient.value.mountCount > 0
    then h.(transient := Some(h.transient.value.(mountCount := h.transient.value.mountCount - 1, openInWriteMode := false)))
    else h
  }

  /** Compare-exchange to the closed header. */
  predicate ExchangeToClose(s: State, t: State, c: nat)
    requires c in s.clients
  {
    && s.clients[c].CloseRead?
    && s.main == s.clients[c].header
    && t == Move(s, c, Idle).(main := ClosedHeader(s.clients[c].header))
  }

  ghost predicate ClientStep(s: State, t: State, c: nat) {
    && c in s.clients
    && (|| ReadHeader(s, t, c) || CheckBackup(s, t, c) || ExchangeToOpen(s, t, c) || OpenFails(s, t, c)
        || TakeFileId(s, t, c)
        || (exists root: nat, freeBlocks: nat, closing: bool :: WriteBackup(s, t, c, root, freeBlocks, closing))
        || WriteMain(s, t, c) || ReadToClose(s, t, c) || ExchangeToClose(s, t, c))
  }

  ghost predicate Step(s: State, t: State) {
    exists c: nat :: ClientStep(s, t, c)
  }

  /** A device created and closed, with nobody at work and the ids below the next one already in use. */
  ghost predicate Init(s: State) {
    && s.main.known && s.main.transient == Some(Transient(0, false, Ready)) && s.main.backupHeader != MAIN_HEADER_BLOCK
    && MatchesBackup(s.main, s.backup)
    && (forall c :: c in s.clients ==> s.clients[c].Idle?)
    && s.issued == [] && s.flushed == CoreOf(s.main)
  }

  ghost predicate IsRun(run: seq<State>) {
    && |run| > 0 && Init(run[0])
    && forall i :: 0 <= i < |run| - 1 ==> Step(run[i], run[i + 1])
  }

  // ----- The invariant -----

  /** The mounted client, if there is one. */
  ghost predicate Owner(s: State, o: Option<nat>) {
    && (o.Some? ==> o.value in s.clients && HoldsMount(s.clients[o.value]))
    && (forall c :: c in s.clients && HoldsMount(s.clients[c]) ==> o == Some(c))
  }

  /** The header is in use, with the mount count showing whether anybody holds the mount. */
  ghost predicate MainOk(s: State, o: Option<nat>) {
    && s.main.known && s.main.backupHeader != MAIN_HEADER_BLOCK
    && s.main.transient == Some(Transient(if o.Some? then 1 else 0, o.Some?, Ready))
    && s.flushed == CoreOf(s.main)
  }

  /** What the owner holds agrees with the device in everything it does not itself change. */
  ghost predicate OwnerOk(s: State, client: Client) {
    HoldsMount(client) ==>
      && client.data.status == Ready && client.data.uuid == s.main.uuid
      && client.data.name == s.main.name && client.data.backupHeader == s.main.backupHeader
      && (client.BackupWritten? ==> s.backup == BackupOf(HeaderOf(client.data)))
      && (client.CloseFlushed? || client.CloseRead? ==> s.main == HeaderOf(client.data))
      && (client.CloseRead? ==> client.header == s.main)
  }

  /** The next file id: in memory while mounted, on the device otherwise. */
  ghost function NextId(s: State, o: Option<nat>): nat
    requires Owner(s, o)
  {
    if o.Some? then s.clients[o.value].data.nextFileId else s.main.nextFileId
  }

  ghost predicate IdsOk(s: State, o: Option<nat>)
    requires Owner(s, o)
  {
    && (forall i :: 0 <= i < |s.issued| ==> s.issued[i] < NextId(s, o))
    && (forall i, j :: 0 <= i < j < |s.issued| ==> s.issued[i] != s.issued[j])
  }

  ghost predicate Flushing(s: State, o: Option<nat>) {
    o.Some? && o.value in s.clients && s.clients[o.value].BackupWritten?
  }

  /** A client about to exchange has seen the device unmounted. */
  ghost predicate OpenersOk(s: State) {
    forall c :: c in s.clients && s.clients[c].BackupChecked? ==>
      s.clients[c].header.transient.Some? && s.clients[c].header.transient.value.mountCount == 0
  }

  ghost predicate InvWith(s: State, o: Option<nat>) {
    && Owner(s, o) && MainOk(s, o) && IdsOk(s, o) && OpenersOk(s)
    && (o.Some? ==> OwnerOk(s, s.clients[o.value]))
    && (!Flushing(s, o) ==> MatchesBackup(s.main, s.backup))
  }

  ghost predicate Inv(s: State) {
    exists o: Option<nat> :: InvWith(s, o)
  }

  lemma InitInv(s: State)
    requires Init(s)
    ensures Inv(s)
  {
    assert InvWith(s, None);
  }

  /** While opening, a client only changes its own entry. */
  lemma OpeningKeepsInv(s: State, t: State, c: nat, o: Option<nat>)
    requires InvWith(s, o) && c in s.clients && (ReadHeader(s, t, c) || CheckBackup(s, t, c) || OpenFails(s, t, c))
    ensures InvWith(t, o)
  {
  }

  lemma ExchangeToOpenKeepsInv(s: State, t: State, c: nat, o: Option<nat>)
    requires InvWith(s, o) && c in s.clients && ExchangeToOpen(s, t, c)
    ensures InvWith(t, Some(c))
  {
    assert o.None?;
  }

  lemma OwnerIs(s: State, c: nat, o: Option<nat>)
    requires Owner(s, o) && c in s.clients && HoldsMount(s.clients[c])
    ensures o == Some(c)
  {
  }

  lemma TakeFileIdKeepsInv(s: State, t: State, c: nat, o: Option<nat>)
    requires InvWith(s, o) && c in s.clients && TakeFileId(s, t, c)
    ensures InvWith(t, o)
  {
    OwnerIs(s, c, o);
  }

  lemma WriteBackupKeepsInv(s: State, t: State, c: nat, o: Option<nat>, root: nat, freeBlocks: nat, closing: bool)
    requires InvWith(s, o) && c in s.clients && WriteBackup(s, t, c, root, freeBlocks, closing)
    ensures InvWith(t, o)
  {
    OwnerIs(s, c, o);
  }

  lemma WriteMainKeepsInv(s: State, t: State, c: nat, o: Option<nat>)
    requires InvWith(s, o) && c in s.clients && WriteMain(s, t, c)
    ensures InvWith(t, o)
  {
    OwnerIs(s, c, o);
  }

  lemma ReadToCloseKeepsInv(s: State, t: State, c: nat, o: Option<nat>)
    requires InvWith(s, o) && c in s.clients && ReadToClose(s, t, c)
    ensures InvWith(t, o)
  {
    OwnerIs(s, c, o);
  }

  lemma ExchangeToCloseKeepsInv(s: State, t: State, c: nat, o: Option<nat>)
    requires InvWith(s, o) && c in s.clients && ExchangeToClose(s, t, c)
    ensures InvWith(t, None)
  {
    OwnerIs(s, c, o);
  }

  lemma StepKeepsInv(s: State, t: State)
    requires Inv(s) && Step(s, t)
    ensures Inv(t)
  {
    hide InvWith, ClientStep;
    var o: Option<nat> :| InvWith(s, o);
    var c: nat :| ClientStep(s, t, c);
    ClientKeepsInv(s, t, c, o);
  }

  /** Opening makes the client the owner, closing leaves none. */
  lemma ClientKeepsInv(s: State, t: State, c: nat, o: Option<nat>)
    requires InvWith(s, o) && ClientStep(s, t, c)
    ensures InvWith(t, if ExchangeToOpen(s, t, c) then Some(c) else if ExchangeToClose(s, t, c) then None else o)
  {
    hide InvWith, ReadHeader, CheckBackup, OpenFails, TakeFileId, WriteBackup, WriteMain, ReadToClose;
    assert ExchangeToOpen(s, t, c) ==> s.clients[c].BackupChecked?;
    assert ExchangeToClose(s, t, c) ==> s.clients[c].CloseRead?;
    hide ExchangeToOpen, ExchangeToClose;
    if ExchangeToOpen(s, t, c) {
      ExchangeToOpenKeepsInv(s, t, c, o);
    } else if ExchangeToClose(s, t, c) {
      ExchangeToCloseKeepsInv(s, t, c, o);
    } else if ReadHeader(s, t, c) || CheckBackup(s, t, c) || OpenFails(s, t, c) {
      OpeningKeepsInv(s, t, c, o);
    } else if TakeFileId(s, t, c) {
      TakeFileIdKeepsInv(s, t, c, o);
    } else if WriteMain(s, t, c) {
      WriteMainKeepsInv(s, t, c, o);
    } else if ReadToClose(s, t, c) {
      ReadToCloseKeepsInv(s, t, c, o);
    } else {
      var root: nat, freeBlocks: nat, closing: bool :| WriteBackup(s, t, c, root, freeBlocks, closing);
      WriteBackupKeepsInv(s, t, c, o, root, freeBlocks, closing);
    }
  }

  lemma {:induction false} RunKeepsInv(run: seq<State>, k: nat)
    requires IsRun(run) && k < |run|
    ensures Inv(run[k])
    decreases k
  {
    hide Inv, Step, Init;
    if k == 0 {
      InitInv(run[0]);
    } else {
      RunKeepsInv(run, k - 1);
      assert Step(run[k - 1], run[k - 1 + 1]);
      StepKeepsInv(run[k - 1], run[k]);
    }
  }

  // ----- What holds in every run -----

  /** At most one client holds the mount, and the mount count on the device says whether one does. */
  lemma AtMostOneMounted(run: seq<State>, k: nat, a: nat, b: nat)
    requires IsRun(run) && k < |run|
    requires a in run[k].clients && b in run[k].clients
    requires HoldsMount(run[k].clients[a]) && HoldsMount(run[k].clients[b])
    ensures a == b
    ensures run[k].main.transient == Some(Transient(1, true, Ready))
  {
    RunKeepsInv(run, k);
    var o: Option<nat> :| InvWith(run[k], o);
  }

  /** A client whose exchange succeeds is alone and has the root, free list and next file id of the last
      completed flush, whatever happened to the header between its reading and its exchange. */
  lemma OpenSeesLastFlush(run: seq<State>, k: nat, c: nat)
    requires IsRun(run) && k + 1 < |run| && c in run[k].clients && ExchangeToOpen(run[k], run[k + 1], c)
    ensures forall b :: b in run[k].clients ==> !HoldsMount(run[k].clients[b])
    ensures c in run[k + 1].clients && run[k + 1].clients[c].Mounted?
    ensures var d := run[k + 1].clients[c].data; Core(d.root, d.freeBlocks, d.nextFileId) == run[k].flushed
    ensures MatchesBackup(run[k + 1].main, run[k + 1].backup)
  {
    RunKeepsInv(run, k);
    var o: Option<nat> :| InvWith(run[k], o);
    ExchangeToOpenKeepsInv(run[k], run[k + 1], c, o);
  }

  /** File ids are never handed out twice, across all mounts. */
  lemma FileIdsDistinct(run: seq<State>, k: nat, i: nat, j: nat)
    requires IsRun(run) && k < |run| && i < j < |run[k].issued|
    ensures run[k].issued[i] != run[k].issued[j]
  {
    RunKeepsInv(run, k);
    var o: Option<nat> :| InvWith(run[k], o);
  }

  /** The ids handed out so far are `first` and those that follow, and the next one comes next. */
  ghost predicate IdsFrom(s: State, o: Option<nat>, first: nat) {
    && InvWith(s, o) && NextId(s, o) == first + |s.issued|
    && forall i :: 0 <= i < |s.issued| ==> s.issued[i] == first + i
  }

  lemma StepKeepsIds(s: State, t: State, o: Option<nat>, first: nat) returns (p: Option<nat>)
    requires IdsFrom(s, o, first) && Step(s, t)
    ensures IdsFrom(t, p, first)
  {
    var c: nat :| ClientStep(s, t, c);
    p := if ExchangeToOpen(s, t, c) then Some(c) else if ExchangeToClose(s, t, c) then None else o;
    assert InvWith(t, p) by { ClientKeepsInv(s, t, c, o); }
    hide MainOk, IdsOk, OpenersOk, MatchesBackup, IsRun;
    if HoldsMount(s.clients[c]) { OwnerIs(s, c, o); }
  }

  lemma {:induction false} RunIds(run: seq<State>, k: nat) returns (o: Option<nat>)
    requires IsRun(run) && k < |run|
    ensures IdsFrom(run[k], o, run[0].main.nextFileId)
    decreases k
  {
    hide Step;
    if k == 0 {
      o := None;
    } else {
      hide IdsFrom;
      o := RunIds(run, k - 1);
      assert Step(run[k - 1], run[k - 1 + 1]);
      o := StepKeepsIds(run[k - 1], run[k], o, run[0].main.nextFileId);
    }
  }

  /** They are handed out in order, without a gap, from the id the device starts with. */
  lemma FileIdsInOrder(run: seq<State>, k: nat, i: nat)
    requires IsRun(run) && k < |run| && i < |run[k].issued|
    ensures run[k].issued[i] == run[0].main.nextFileId + i
  {
    hide InvWith, NextId, IsRun;
    var o := RunIds(run, k);
  }

  /** With no flush between its two header writes, the main header matches the backup: the backup has no transient part,
      points back to the main header, and agrees in everything else. */
  lemma HeadersMatchOutsideFlush(run: seq<State>, k: nat)
    requires IsRun(run) && k < |run|
    requires forall c :: c in run[k].clients ==> !run[k].clients[c].BackupWritten?
    ensures MatchesBackup(run[k].main, run[k].backup)
    ensures var h, b := run[k].main, run[k].backup;
            && b.transient.None? && b.backupHeader == MAIN_HEADER_BLOCK != h.backupHeader
            && b.known && b.uuid == h.uuid && b.name == h.name
            && b.root == h.root && b.freeBlocks == h.freeBlocks && b.nextFileId == h.nextFileId
  {
    RunKeepsInv(run, k);
    var o: Option<nat> :| InvWith(run[k], o);
  }

  // ----- What a flush stores -----

  ghost predicate MainWrittenBy(run: seq<State>, i: nat, c: nat) {
    i + 1 < |run| && c in run[i].clients && WriteMain(run[i], run[i + 1], c)
  }

  ghost predicate BackupWrittenBy(run: seq<State>, i: nat, c: nat, root: nat, freeBlocks: nat, closing: bool) {
    i + 1 < |run| && c in run[i].clients && WriteBackup(run[i], run[i + 1], c, root, freeBlocks, closing)
  }

  /** Both headers have this root, this free list and this next file id. */
  predicate Stores(s: State, root: nat, freeBlocks: nat, nextFileId: nat) {
    && s.main.root == root && s.main.freeBlocks == freeBlocks && s.main.nextFileId == nextFileId
    && s.backup.root == root && s.backup.freeBlocks == freeBlocks && s.backup.nextFileId == nextFileId
  }

  /** Between its two header writes a client does nothing else, and nobody else touches it. */
  lemma BetweenWrites(s: State, t: State, c: nat)
    requires Step(s, t) && c in s.clients && s.clients[c].BackupWritten? && !WriteMain(s, t, c)
    ensures c in t.clients && t.clients[c] == s.clients[c]
  {
    var b: nat :| ClientStep(s, t, b);
  }

  lemma {:induction false} StillWriting(run: seq<State>, j: nat, k: nat, c: nat)
    requires IsRun(run) && j <= k < |run| && c in run[j].clients && run[j].clients[c].BackupWritten?
    requires forall i :: j <= i < k ==> !MainWrittenBy(run, i, c)
    ensures c in run[k].clients && run[k].clients[c] == run[j].clients[c]
    decreases k
  {
    hide Step, Init;
    if j < k {
      StillWriting(run, j, k - 1, c);
      assert Step(run[k - 1], run[k - 1 + 1]) && !MainWrittenBy(run, k - 1, c);
      BetweenWrites(run[k - 1], run[k], c);
    }
  }

  lemma StoresWhatItHas(s: State, t: State, c: nat)
    requires Inv(s) && c in s.clients && WriteMain(s, t, c)
    ensures var d := s.clients[c].data; Stores(t, d.root, d.freeBlocks, d.nextFileId)
  {
    var o: Option<nat> :| InvWith(s, o);
    OwnerIs(s, c, o);
  }

  /** A flush that begins with a root and a free list ends with both headers holding them, and the next file id of the
      client that flushes, whatever the other clients do in between. */
  lemma FlushStores(run: seq<State>, j: nat, k: nat, c: nat, root: nat, freeBlocks: nat, closing: bool)
    requires IsRun(run) && j < k && BackupWrittenBy(run, j, c, root, freeBlocks, closing) && MainWrittenBy(run, k, c)
    requires forall i :: j < i < k ==> !MainWrittenBy(run, i, c)
    ensures run[j].clients[c].Mounted? && Stores(run[k + 1], root, freeBlocks, run[j].clients[c].data.nextFileId)
    ensures c in run[k + 1].clients && HoldsMount(run[k + 1].clients[c])
    ensures var d := run[k + 1].clients[c].data; d.root == root && d.freeBlocks == freeBlocks
  {
    StillWriting(run, j + 1, k, c);
    RunKeepsInv(run, k);
    hide Inv, IsRun;
    StoresWhatItHas(run[k], run[k + 1], c);
  }

  lemma StepKeepsCore(s: State, t: State)
    requires Step(s, t) && forall c :: c in s.clients ==> !WriteMain(s, t, c)
    ensures CoreOf(t.main) == CoreOf(s.main)
  {
    var b: nat :| ClientStep(s, t, b);
  }

  lemma {:induction false} CoreStays(run: seq<State>, k: nat, m: nat)
    requires IsRun(run) && k <= m < |run|
    requires forall i, b :: k <= i < m ==> !MainWrittenBy(run, i, b)
    ensures CoreOf(run[m].main) == CoreOf(run[k].main)
    decreases m
  {
    hide Step, Init;
    if k < m {
      CoreStays(run, k, m - 1);
      assert Step(run[m - 1], run[m - 1 + 1]);
      var s, t := run[m - 1], run[m];
      forall b | b in s.clients ensures !WriteMain(s, t, b) {
        assert !MainWrittenBy(run, m - 1, b);
      }
      StepKeepsCore(s, t);
    }
  }

  /** The next client that opens the device holds the root and the free list of the last flush, and goes on with its file
      ids. */
  lemma OpenHoldsFlush(run: seq<State>, j: nat, k: nat, m: nat, c: nat, root: nat, freeBlocks: nat, closing: bool, b: nat)
    requires IsRun(run) && j < k < m && BackupWrittenBy(run, j, c, root, freeBlocks, closing) && MainWrittenBy(run, k, c)
    requires forall i :: j < i < k ==> !MainWrittenBy(run, i, c)
    requires forall i, o :: k < i < m ==> !MainWrittenBy(run, i, o)
    requires m + 1 < |run| && b in run[m].clients && ExchangeToOpen(run[m], run[m + 1], b)
    ensures b in run[m + 1].clients && run[m + 1].clients[b].Mounted?
    ensures var d := run[m + 1].clients[b].data;
            d.root == root && d.freeBlocks == freeBlocks && d.nextFileId == run[j].clients[c].data.nextFileId
    ensures Stores(run[m + 1], root, freeBlocks, run[j].clients[c].data.nextFileId)
  {
    FlushStores(run, j, k, c, root, freeBlocks, closing);
    CoreStays(run, k + 1, m);
    OpenSeesLastFlush(run, m, b);
    hide IsRun;
  }

  /** Whatever happens, the device keeps its identity, its name and the place of its backup. */
  lemma StepKeepsIdentity(s: State, t: State)
    requires Inv(s) && Step(s, t)
    ensures t.main.uuid == s.main.uuid && t.main.name == s.main.name && t.main.backupHeader == s.main.backupHeader
  {
    var o: Option<nat> :| InvWith(s, o);
    var c: nat :| ClientStep(s, t, c);
    if WriteMain(s, t, c) { OwnerIs(s, c, o); }
  }

  lemma {:induction false} IdentityStays(run: seq<State>, k: nat)
    requires IsRun(run) && k < |run|
    ensures run[k].main.uuid == run[0].main.uuid && run[k].main.name == run[0].main.name
    ensures run[k].main.backupHeader == run[0].main.backupHeader
    decreases k
  {
    hide Step, Init, Inv;
    if k > 0 {
      IdentityStays(run, k - 1);
      RunKeepsInv(run, k - 1);
      assert Step(run[k - 1], run[k - 1 + 1]);
      StepKeepsIdentity(run[k - 1], run[k]);
    }
  }

  /** Closing never meets a changed header, so its first exchange succeeds and leaves the device unmounted
      with the flushed core. */
  lemma CloseSucceeds(run: seq<State>, k: nat, c: nat)
    requires IsRun(run) && k < |run| && c in run[k].clients && run[k].clients[c].CloseRead?
    ensures run[k].main == run[k].clients[c].header
    ensures var t := Move(run[k], c, Idle).(main := ClosedHeader(run[k].clients[c].header));
            && ClientStep(run[k], t, c)
            && t.main.transient == Some(Transient(0, false, Ready)) && CoreOf(t.main) == run[k].flushed
  {
    RunKeepsInv(run, k);
    var o: Option<nat> :| InvWith(run[k], o);
    OwnerIs(run[k], c, o);
    var t := Move(run[k], c, Idle).(main := ClosedHeader(run[k].clients[c].header));
    assert ExchangeToClose(run[k], t, c);
  }

  lemma Extend(run: seq<State>, t: State, c: nat)
    requires IsRun(run) && ClientStep(run[|run| - 1], t, c)
    ensures IsRun(run + [t])
  {
    hide Init, ClientStep;
    var longer := run + [t];
    forall i | 0 <= i < |longer| - 1 ensures Step(longer[i], longer[i + 1]) {
      if i < |run| - 1 {
        assert Step(run[i], run[i + 1]);
      }
    }
  }

  /** A client that reads and checks an unmounted device is ready to exchange. */
  lemma Approaches(run: seq<State>, c: nat, h: Header) returns (longer: seq<State>)
    requires IsRun(run) && c in run[|run| - 1].clients && run[|run| - 1].clients[c].Idle? && run[|run| - 1].main == h
    requires h.known && h.transient == Some(Transient(0, false, Ready)) && MatchesBackup(h, run[|run| - 1].backup)
    ensures IsRun(longer) && |longer| == |run| + 2 && run <= longer
    ensures longer[|run| + 1] == Move(run[|run| - 1], c, BackupChecked(h))
  {
    var s := run[|run| - 1];
    var s1 := Move(s, c, HeaderRead(h));
    var s2 := Move(s1, c, BackupChecked(h));
    assert ReadHeader(s, s1, c) && CheckBackup(s1, s2, c);
    assert ClientStep(s, s1, c) && ClientStep(s1, s2, c);
    hide ClientStep, IsRun;
    Extend(run, s1, c);
    Extend(run + [s1], s2, c);
    longer := run + [s1] + [s2];
    assert s2.clients == s.clients[c := BackupChecked(h)];
  }

  lemma Exchanges(run: seq<State>, c: nat, h: Header) returns (longer: seq<State>)
    requires IsRun(run) && c in run[|run| - 1].clients && run[|run| - 1].clients[c] == BackupChecked(h)
    requires run[|run| - 1].main == h && h.transient.Some?
    ensures IsRun(longer) && |longer| == |run| + 1 && run <= longer
    ensures longer[|run|] == Move(run[|run| - 1], c, Mounted(DataOf(h))).(main := OpenedHeader(h))
  {
    var s := run[|run| - 1];
    var t := Move(s, c, Mounted(DataOf(h))).(main := OpenedHeader(h));
    assert ExchangeToOpen(s, t, c) && ClientStep(s, t, c);
    Extend(run, t, c);
    longer := run + [t];
  }

  ghost predicate Unmounted(s: State) {
    forall c :: c in s.clients ==> !HoldsMount(s.clients[c])
  }

  /** On a device that nobody has mounted, a client that opens it undisturbed gets it. */
  lemma AnyoneCanOpen(run: seq<State>, c: nat) returns (longer: seq<State>)
    requires IsRun(run) && c in run[|run| - 1].clients && run[|run| - 1].clients[c].Idle?
    requires Unmounted(run[|run| - 1])
    ensures IsRun(longer) && |longer| == |run| + 3 && run <= longer
    ensures var s, t := run[|run| - 1], longer[|run| + 2];
            && s.main.transient.Some? && t.clients == s.clients[c := Mounted(DataOf(s.main))]
            && t.main.transient == Some(Transient(1, true, Ready))
  {
    var s := run[|run| - 1];
    RunKeepsInv(run, |run| - 1);
    var o: Option<nat> :| InvWith(s, o);
    assert o.None? && s.main.known && s.main.transient == Some(Transient(0, false, Ready)) && MatchesBackup(s.main, s.backup);
    hide InvWith, IsRun;
    var near := Approaches(run, c, s.main);
    longer := Exchanges(near, c, s.main);
    assert longer[|run| + 2].clients == s.clients[c := Mounted(DataOf(s.main))];
  }

  /** A client that closes without having changed anything puts the old header back. */
  lemma ClosesUnchanged(run: seq<State>, c: nat, h: Header) returns (longer: seq<State>)
    requires h.known && h.transient == Some(Transient(0, false, Ready))
    requires IsRun(run) && c in run[|run| - 1].clients && run[|run| - 1].clients[c] == Mounted(DataOf(h))
    requires run[|run| - 1].main == OpenedHeader(h) && run[|run| - 1].backup == BackupOf(h)
    ensures IsRun(longer) && |longer| == |run| + 4 && run <= longer
    ensures var t := longer[|run| + 3]; t.main == h && t.backup == BackupOf(h)
                                        && t.clients == run[|run| - 1].clients[c := Idle]
  {
    var s := run[|run| - 1];
    var d := DataOf(h);
    assert d.(root := h.root, freeBlocks := h.freeBlocks) == d && HeaderOf(d) == OpenedHeader(h);
    var s1 := Move(s, c, BackupWritten(d, true)).(backup := BackupOf(HeaderOf(d)));
    var s2 := Move(s1, c, CloseFlushed(d)).(main := HeaderOf(d), flushed := CoreOf(HeaderOf(d)));
    var s3 := Move(s2, c, CloseRead(d, s2.main));
    var s4 := Move(s3, c, Idle).(main := ClosedHeader(s2.main));
    assert WriteBackup(s, s1, c, h.root, h.freeBlocks, true) && WriteMain(s1, s2, c);
    assert ReadToClose(s2, s3, c) && ExchangeToClose(s3, s4, c);
    assert ClientStep(s, s1, c) && ClientStep(s1, s2, c) && ClientStep(s2, s3, c) && ClientStep(s3, s4, c);
    hide ClientStep, IsRun;
    Extend(run, s1, c);
    Extend(run + [s1], s2, c);
    Extend(run + [s1] + [s2], s3, c);
    Extend(run + [s1] + [s2] + [s3], s4, c);
    longer := run + [s1] + [s2] + [s3] + [s4];
    assert s4.clients == s.clients[c := Idle];
  }

  /** The exchange does succeed on a header that changed and changed back: after client 1 has read it, client 2
      opens, flushes without a change and closes. */
  lemma ChangedAndChangedBack(h: Header) returns (run: seq<State>, k: nat)
    requires h.known && h.transient == Some(Transient(0, false, Ready)) && h.backupHeader != MAIN_HEADER_BLOCK
    ensures IsRun(run) && 2 < k < |run| && run[2].clients == map[1 := BackupChecked(h), 2 := Idle]
    ensures run[k].main != h && run[|run| - 1].clients == map[1 := Mounted(DataOf(h)), 2 := Idle]
  {
    var s := State(h, BackupOf(h), map[1 := Idle, 2 := Idle], [], CoreOf(h));
    assert IsRun([s]);
    hide IsRun;
    var r2 := Approaches([s], 1, h);
    assert r2[2].clients == map[1 := BackupChecked(h), 2 := Idle];
    var r4 := Approaches(r2, 2, h);
    var r5 := Exchanges(r4, 2, h);
    k := 5;
    assert r5[5].main == OpenedHeader(h) != h;
    var r9 := ClosesUnchanged(r5, 2, h);
    run := Exchanges(r9, 1, h);
    assert run[2] == r2[2] && run[5] == r5[5];
    assert run[10].clients == map[1 := Mounted(DataOf(h)), 2 := Idle];
  }
}
