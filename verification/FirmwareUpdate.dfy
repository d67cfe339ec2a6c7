/** The over-the-air firmware update protocol: init, stream, abort, complete.

    `Next` says what each request does to the session, without looking at the flash; the class
    carries the requests out on the flash. */
module FirmwareUpdate {
  import opened FlashMemory
  import opened Sequences
  import Base64

  type Digest = seq<bv8>

  // Decoded bytes per chunk: 4096 / 2 symbols at 3/4 byte each.
  const BIN_CHUNK_SIZE: nat := 4096 / 2 * 3 / 4

  datatype Request =
    | Init(imagelen: nat, hash: Digest)
    | Stream(payload: seq<bv8>)
    | Abort
    | Complete

  datatype Session =
    | Idle
    | Uploading(imagelen: nat, hash: Digest, received: seq<bv8>)
    | Rebooted(image: seq<bv8>)
    | NullDereference // a null upgrade was read: complete without an upload, or an init that is too large

  datatype Entry = Entry(request: Request, code: int)

  // How the device goes on after a request.
  datatype Ending = GoesOn | Reboots | Crashes

  const UNANSWERED := -1

  // ---------------------------------------------------------------- the buffer region

  // The least sector boundary from which everything up to the reserve is erased.
  ghost function FreeFrom(m: seq<bv8>, off: nat): (r: nat)
    requires |m| == FLASH_SIZE && off <= CAPACITY && AtSector(off)
    requires Erased(m, off, CAPACITY) && !Erased(m, 0, CAPACITY)
    ensures IsBuffer(m, r) && r <= off
  {
    if Erased(m, off - SECTOR, CAPACITY) then FreeFrom(m, off - SECTOR) else off
  }

  ghost predicate IsBuffer(m: seq<bv8>, off: nat)
    requires |m| == FLASH_SIZE
  {
    AtSector(off) && SECTOR <= off <= CAPACITY && Erased(m, off, CAPACITY) && !Erased(m, off - SECTOR, CAPACITY)
  }

  lemma NoLowerBuffer(m: seq<bv8>, a: nat, b: nat)
    requires |m| == FLASH_SIZE && IsBuffer(m, a) && IsBuffer(m, b)
    ensures b <= a
  {
    assert a < b ==> a + SECTOR <= b;
  }

  lemma BufferIsUnique(m: seq<bv8>, a: nat, b: nat)
    requires |m| == FLASH_SIZE && IsBuffer(m, a) && IsBuffer(m, b)
    ensures a == b
  {
    NoLowerBuffer(m, a, b);
    NoLowerBuffer(m, b, a);
  }

  ghost predicate Programmable(m: seq<bv8>) {
    |m| == FLASH_SIZE && !Erased(m, 0, CAPACITY)
  }

  ghost function Region(m: seq<bv8>): (off: nat)
    requires Programmable(m)
    ensures IsBuffer(m, off)
  {
    FreeFrom(m, CAPACITY)
  }

  lemma RegionInFlash(m: seq<bv8>)
    requires Programmable(m)
    ensures AtSector(FLASH_BASE + Region(m)) && SECTOR <= Region(m) <= CAPACITY
  {
  }

  lemma ChunkAddress(m: seq<bv8>, done: nat, n: nat)
    requires Programmable(m) && done % 4 == 0 && n % 4 == 0 && n > 0 && done + n <= CAPACITY - Region(m)
    ensures InFlash(FLASH_BASE + Region(m) + done) && (FLASH_BASE + Region(m) + done) % 4 == 0
    ensures (done + n) % 4 == 0 && Erased(m, Region(m), CAPACITY)
  {
    ChunkAligned(Sectors(Region(m)), Words(done), Words(n));
  }

  lemma ChunkAligned(sectors: nat, done: nat, n: nat)
    ensures (FLASH_BASE + SECTOR * sectors + WORD * done) % 4 == 0 && (WORD * done + WORD * n) % 4 == 0
  {
    assert FLASH_BASE + SECTOR * sectors + WORD * done == 4 * (FLASH_BASE / 4 + SECTOR / 4 * sectors + done);
    assert WORD * done + WORD * n == 4 * (done + n);
  }

  lemma RegionFound(m: seq<bv8>, off: nat)
    requires Programmable(m) && AtSector(FLASH_BASE + off) && SECTOR <= off <= CAPACITY
    requires Erased(m, off, CAPACITY) && !Erased(m, off - SECTOR, CAPACITY)
    ensures off == Region(m)
  {
    assert AtSector(off);
    BufferIsUnique(m, off, Region(m));
  }

  // ---------------------------------------------------------------- the protocol

  function StreamCode(s: Session, payload: seq<bv8>): int {
    if !s.Uploading? then 1
    else if |s.received| == s.imagelen then 2
    else if |payload| == 0 then 3
    else if |payload| % 4 != 0 then 4
    else
      var n := |Base64.Decoded(payload)|;
      if n == 0 || BIN_CHUNK_SIZE < n then 2
      else if |s.received| + n > s.imagelen then 7
      else if n % 4 != 0 then 8
      else 0
  }

  function Next(sha: seq<bv8> -> Digest, capacity: nat, s: Session, r: Request): (Session, int) {
    if s.Rebooted? || s.NullDereference? then (s, UNANSWERED) else
    match r
    case Init(imagelen, hash) =>
      if s.Uploading? then (s, 1)
      else if imagelen > capacity then (NullDereference, UNANSWERED) // deleted, then read for the error text
      else (Uploading(imagelen, hash, []), 0)
    case Stream(payload) =>
      var code := StreamCode(s, payload);
      if code == 0 then (s.(received := s.received + Base64.Decoded(payload)), 0) else (s, code)
    case Abort => (Idle, 1) // the success path returns true
    case Complete =>
      if s.Idle? then (NullDereference, UNANSWERED)
      else if |s.received| != s.imagelen then (s, 1)
      else if sha(s.received) != s.hash then (s, 2)
      else (Rebooted(s.received), UNANSWERED)
  }

  function Run(sha: seq<bv8> -> Digest, capacity: nat, requests: seq<Request>): (Session, seq<Entry>) {
    if requests == [] then (Idle, []) else
      var last := |requests| - 1;
      var (s, log) := Run(sha, capacity, requests[..last]);
      var (s', code) := Next(sha, capacity, s, requests[last]);
      (s', log + [Entry(requests[last], code)])
  }

  // Everything the accepted chunks since the last accepted init decode to.
  function AcceptedPayload(log: seq<Entry>): seq<bv8> {
    if log == [] then [] else
      var e, earlier := log[|log| - 1], log[..|log| - 1];
      if e.code != 0 then AcceptedPayload(earlier)
      else match e.request
        case Init(_, _) => []
        case Stream(payload) => AcceptedPayload(earlier) + Base64.Decoded(payload)
        case _ => AcceptedPayload(earlier)
  }

  // The length and hash announced by the last accepted init.
  function Announced(log: seq<Entry>): (nat, Digest) {
    if log == [] then (0, []) else
      var e := log[|log| - 1];
      if e.code == 0 && e.request.Init? then (e.request.imagelen, e.request.hash)
      else Announced(log[..|log| - 1])
  }

  // What a session owes to the requests answered so far.
  ghost predicate Justified(sha: seq<bv8> -> Digest, capacity: nat, s: Session, log: seq<Entry>) {
    match s
    case Uploading(imagelen, hash, received) =>
      && received == AcceptedPayload(log) && (imagelen, hash) == Announced(log)
      && |received| % 4 == 0 && |received| <= imagelen <= capacity
    case Rebooted(image) =>
      && image == AcceptedPayload(log) && |image| % 4 == 0
      && |image| == Announced(log).0 <= capacity && sha(image) == Announced(log).1
    case _ => true
  }

  lemma StepIsJustified(sha: seq<bv8> -> Digest, capacity: nat, s: Session, log: seq<Entry>, r: Request)
    requires Justified(sha, capacity, s, log)
    ensures var (s', code) := Next(sha, capacity, s, r);
            Justified(sha, capacity, s', log + [Entry(r, code)])
  {
    hide Base64.Decoded, AcceptedPayload, Announced, StreamCode;
    OneMoreEntry(log, r, Next(sha, capacity, s, r).1);
    if r.Stream? { AcceptedChunk(s, r.payload); }
  }

  lemma OneMoreEntry(log: seq<Entry>, r: Request, code: int)
    ensures AcceptedPayload(log + [Entry(r, code)]) ==
            if code == 0 && r.Init? then []
            else if code == 0 && r.Stream? then AcceptedPayload(log) + Base64.Decoded(r.payload)
            else AcceptedPayload(log)
    ensures Announced(log + [Entry(r, code)]) == if code == 0 && r.Init? then (r.imagelen, r.hash) else Announced(log)
  {
    hide Base64.Decoded;
    var log' := log + [Entry(r, code)];
    assert log'[..|log'| - 1] == log;
  }

  // What the checks of a chunk amount to.
  lemma AcceptedChunk(s: Session, payload: seq<bv8>)
    ensures StreamCode(s, payload) == 0 ==>
              s.Uploading? && |s.received| + |Base64.Decoded(payload)| <= s.imagelen
              && |Base64.Decoded(payload)| % 4 == 0
  {
    hide Base64.Decoded;
  }

  /** Over every run: the device reboots into an image only if the accepted chunks add up to
      exactly the announced length and hash, and then the image is their concatenation. */
  lemma {:induction false} RunIsJustified(sha: seq<bv8> -> Digest, capacity: nat, requests: seq<Request>)
    ensures var (s, log) := Run(sha, capacity, requests);
            Justified(sha, capacity, s, log)
  {
    if requests != [] {
      var last := |requests| - 1;
      RunIsJustified(sha, capacity, requests[..last]);
      var (s, log) := Run(sha, capacity, requests[..last]);
      StepIsJustified(sha, capacity, s, log, requests[last]);
    }
  }

  lemma RunsNothing(sha: seq<bv8> -> Digest, capacity: nat)
    ensures Run(sha, capacity, []) == (Idle, [])
  {
  }

  lemma LastRequest(sha: seq<bv8> -> Digest, capacity: nat, requests: seq<Request>)
    requires requests != []
    ensures var last := |requests| - 1;
            Run(sha, capacity, requests).0 ==
            Next(sha, capacity, Run(sha, capacity, requests[..last]).0, requests[last]).0
  {
  }

  // What an idle session answers by reading the upgrade it does not have.
  predicate ReadsNull(capacity: nat, r: Request) {
    r == Complete || (r.Init? && r.imagelen > capacity)
  }

  lemma DereferencesNullNext(sha: seq<bv8> -> Digest, capacity: nat, s: Session, r: Request)
    ensures Next(sha, capacity, s, r).0.NullDereference? <==> s.NullDereference? || (s.Idle? && ReadsNull(capacity, r))
  {
    hide StreamCode, Base64.Decoded;
  }

  ghost predicate ReadsNullAt(sha: seq<bv8> -> Digest, capacity: nat, requests: seq<Request>, k: nat) {
    k < |requests| && Run(sha, capacity, requests[..k]).0.Idle? && ReadsNull(capacity, requests[k])
  }

  /** A run ends in a null dereference exactly if an idle session meets a complete request or an
      init announcing more than the buffer region holds. */
  lemma {:induction false} DereferencesNullExactly(sha: seq<bv8> -> Digest, capacity: nat, requests: seq<Request>)
    ensures Run(sha, capacity, requests).0.NullDereference? <==>
            exists k | 0 <= k < |requests| :: ReadsNullAt(sha, capacity, requests, k)
  {
    hide Next, Run, ReadsNull;
    if requests == [] {
      RunsNothing(sha, capacity);
    } else {
      var last := |requests| - 1;
      var before := requests[..last];
      LastRequest(sha, capacity, requests);
      DereferencesNullNext(sha, capacity, Run(sha, capacity, before).0, requests[last]);
      DereferencesNullExactly(sha, capacity, before);
      assert forall k | 0 <= k < last :: before[..k] == requests[..k];
      assert forall k | 0 <= k < last ::
          ReadsNullAt(sha, capacity, before, k) == ReadsNullAt(sha, capacity, requests, k);
      assert ReadsNullAt(sha, capacity, requests, last) <==>
             Run(sha, capacity, before).0.Idle? && ReadsNull(capacity, requests[last]);
    }
  }

  /** The two shortest such runs. */
  lemma CompleteAlone(sha: seq<bv8> -> Digest, capacity: nat)
    ensures Run(sha, capacity, [Complete]).0 == NullDereference
  {
    assert [Complete][..0] == [];
  }

  lemma TooLargeAlone(sha: seq<bv8> -> Digest, capacity: nat, imagelen: nat, hash: Digest)
    ensures Run(sha, capacity, [Init(imagelen, hash)]).0 ==
            if imagelen > capacity then NullDereference else Uploading(imagelen, hash, [])
  {
    assert [Init(imagelen, hash)][..0] == [];
  }

  // ---------------------------------------------------------------- the flash during an upload

  lemma ExtendOverlay(base: seq<bv8>, off: nat, data: seq<bv8>, more: seq<bv8>, m: seq<bv8>, m': seq<bv8>)
    requires off + |data| + |more| <= CAPACITY <= |base| && Erased(base, off, CAPACITY)
    requires m == Written(base, off, data) && ProgrammedOver(m, m', off + |data|, more)
    ensures m' == Written(base, off, data + more)
  {
    forall i | 0 <= i < |m| ensures m'[i] == Written(base, off, data + more)[i] {
      if off + |data| <= i < off + |data| + |more| {
        assert m[i] == base[i] == ERASED_BYTE;
      }
    }
  }

  lemma OverlayReadsBack(base: seq<bv8>, off: nat, data: seq<bv8>)
    requires off + |data| <= CAPACITY && |base| == FLASH_SIZE
    ensures Written(base, off, data)[off..off + |data|] == data
    ensures Moved(Written(base, off, data), off, |data|) == Installed(base, data)
  {
    var m := Written(base, off, data);
    assert m[CAPACITY..] == base[CAPACITY..];
  }

  lemma NothingOverlaid(base: seq<bv8>, off: nat)
    requires off <= |base|
    ensures Written(base, off, []) == base
  {
  }

  // Erasing the buffer region takes the upload off again.
  lemma RegionErased(base: seq<bv8>, off: nat, data: seq<bv8>, after: seq<bv8>)
    requires |base| == |after| == FLASH_SIZE && IsBuffer(base, off) && off + |data| <= CAPACITY
    requires forall i | 0 <= i < FLASH_SIZE ::
               after[i] == if off <= i < SectorEnd(CAPACITY) then ERASED_BYTE else Written(base, off, data)[i]
    ensures after == base
  {
    assert SectorEnd(CAPACITY) == CAPACITY;
  }

  class FirmwareBuffer {
    var imagelen: nat
    var upstreamHash: Digest
    var bytesTransmitted: nat
    const bufferAddr: nat
    const bufferSize: nat

    constructor (addr: nat, size: nat, imagelen: nat, hash: Digest)
      ensures bufferAddr == addr && bufferSize == size && bytesTransmitted == 0
      ensures this.imagelen == imagelen && upstreamHash == hash
    {
      bufferAddr, bufferSize, bytesTransmitted := addr, size, 0;
      this.imagelen, upstreamHash := imagelen, hash;
    }

    predicate TransferCompleted()
      reads this
    {
      imagelen == bytesTransmitted
    }
  }

  class FirmwareFlasher {
    const flash: Flash
    const writer: BlockWriter
    const sha: seq<bv8> -> Digest
    var upgrade: FirmwareBuffer?

    ghost var baseline: seq<bv8> // the flash as it is while no upgrade runs
    ghost var received: seq<bv8> // accepted bytes of the running upgrade

    ghost predicate Valid()
      reads this, flash.mem, writer, upgrade
    {
      && flash.Valid() && writer.Valid() && writer.buf != flash.mem
      && Programmable(baseline)
      && if upgrade == null then flash.mem[..] == baseline && received == [] else
           && upgrade.bufferAddr == FLASH_BASE + Region(baseline)
           && upgrade.bufferSize == CAPACITY - Region(baseline)
           && upgrade.bytesTransmitted == |received| && |received| % 4 == 0
           && |received| <= upgrade.imagelen <= upgrade.bufferSize
           && flash.mem[..] == Written(baseline, Region(baseline), received)
    }

    ghost function Session(): Session
      reads this, upgrade
    {
      if upgrade == null then Idle else Uploading(upgrade.imagelen, upgrade.upstreamHash, received)
    }

    ghost function Capacity(): nat
      requires Programmable(baseline)
      reads this
    {
      CAPACITY - Region(baseline)
    }

    constructor (flash: Flash, writer: BlockWriter, sha: seq<bv8> -> Digest)
      requires flash.Valid() && writer.Valid() && writer.buf != flash.mem
      requires Programmable(flash.mem[..])
      ensures Valid() && this.flash == flash && this.writer == writer && this.sha == sha
      ensures upgrade == null && baseline == flash.mem[..]
    {
      this.flash, this.writer, this.sha := flash, writer, sha;
      upgrade, baseline, received := null, flash.mem[..], [];
    }

    // delete upgrade: the destructor erases the buffer region, which restores the baseline.
    method DeleteUpgrade()
      requires Valid() && upgrade != null
      modifies this, flash.mem
      ensures Valid() && upgrade == null && baseline == old(baseline)
    {
      hide SectorEnd, IsBuffer, Written;
      RegionInFlash(baseline);
      EraseBlock(flash, upgrade.bufferAddr, upgrade.bufferSize);
      RegionErased(baseline, Region(baseline), received, flash.mem[..]);
      upgrade, received := null, [];
    }

    /** Starts an upload.  An announcement that is too large has its buffer deleted and is then
        read for the error text.  The flash does not change, whatever the outcome. */
    method Init(imagelen: nat, hash: Digest) returns (ending: Ending, code: int)
      requires Valid()
      modifies this, flash.mem
      ensures Valid() && baseline == old(baseline) && flash.mem[..] == old(flash.mem[..])
      ensures Next(sha, Capacity(), old(Session()), Request.Init(imagelen, hash)) ==
              (if ending.Crashes? then NullDereference else Session(), code)
      ensures ending == if old(upgrade) == null && imagelen > Capacity() then Crashes else GoesOn
      ensures upgrade == old(upgrade) || upgrade == null || fresh(upgrade)
    {
      hide SectorEnd, IsBuffer, Written;
      if upgrade != null { return GoesOn, 1; }
      RegionInFlash(baseline);
      NothingOverlaid(baseline, Region(baseline));
      var addr, size := BufferInit(flash);
      RegionFound(baseline, addr - FLASH_BASE);
      upgrade := new FirmwareBuffer(addr, size, imagelen, hash);
      if upgrade.imagelen > upgrade.bufferSize {
        EraseBlock(flash, upgrade.bufferAddr, upgrade.bufferSize);
        RegionErased(baseline, Region(baseline), [], flash.mem[..]);
        upgrade := null;
        return Crashes, UNANSWERED;
      }
      return GoesOn, 0;
    }

    // Appends n decoded bytes to the buffer region; the writer cannot refuse them.
    method AppendChunk(decoded: array<bv8>, n: nat) returns (writeError: int)
      requires Valid() && upgrade != null && n % 4 == 0 && 0 < n <= decoded.Length
      requires upgrade.bytesTransmitted + n <= upgrade.imagelen
      requires decoded != flash.mem && decoded != writer.buf
      modifies this, upgrade, writer, writer.buf, flash.mem
      ensures Valid() && writeError == 0 && baseline == old(baseline) && upgrade == old(upgrade)
      ensures received == old(received) + decoded[..n]
      ensures upgrade.imagelen == old(upgrade.imagelen) && upgrade.upstreamHash == old(upgrade.upstreamHash)
    {
      hide ProgrammedOver, Written, Erased, IsBuffer, AtSector;
      ghost var m, off, chunk := flash.mem[..], Region(baseline), decoded[..n];
      ChunkAddress(baseline, |received|, n);
      writeError := writer.WriteBlock(flash, upgrade.bufferAddr + upgrade.bytesTransmitted, decoded, n);
      if writeError != 0 { return; }
      ExtendOverlay(baseline, off, received, chunk, m, flash.mem[..]);
      upgrade.bytesTransmitted := upgrade.bytesTransmitted + n;
      received := received + chunk;
    }

    /** Decodes a chunk and appends it to the buffer; a refused chunk changes nothing. */
    method Stream(payload: seq<bv8>) returns (code: int)
      requires Valid() && |payload| < Base64.SIZE_T
      modifies this, upgrade, writer, writer.buf, flash.mem
      ensures Valid() && baseline == old(baseline) && upgrade == old(upgrade)
      ensures (Session(), code) == Next(sha, Capacity(), old(Session()), Request.Stream(payload))
      ensures code != 0 ==> flash.mem[..] == old(flash.mem[..])
    {
      hide Base64.Decoded, Written;
      if upgrade == null { return 1; }
      if upgrade.TransferCompleted() { return 2; }
      var decoded := new bv8[BIN_CHUNK_SIZE];
      if |payload| == 0 { return 3; }
      if |payload| % 4 != 0 { return 4; }
      var n := Base64.Decode(payload, decoded);
      if n == 0 { return 2; }
      if upgrade.bytesTransmitted + n > upgrade.imagelen { return 7; }
      if n % 4 != 0 { return 8; }
      assert decoded[..n] == Base64.Decoded(payload);
      var writeError := AppendChunk(decoded, n);
      if writeError != 0 { return 50 + writeError; }
      return 0;
    }

    /** Drops a running upload: the flash is again what it was before init. */
    method Abort() returns (code: int)
      requires Valid()
      modifies this, flash.mem
      ensures Valid() && baseline == old(baseline) && upgrade == null && flash.mem[..] == baseline
      ensures (Session(), code) == Next(sha, Capacity(), old(Session()), Request.Abort)
    {
      if upgrade == null { return 1; }
      DeleteUpgrade();
      return 1;
    }

    /** Moves the uploaded image into place if it is complete and its hash is the announced one.
        Nothing checks that there is an upload. */
    method Complete() returns (ending: Ending, code: int)
      requires Valid()
      modifies flash.mem
      ensures Next(sha, Capacity(), old(Session()), Request.Complete) ==
              match ending
              case GoesOn => (Session(), code)
              case Reboots => (Rebooted(received), code)
              case Crashes => (NullDereference, code)
      ensures ending.Crashes? <==> upgrade == null
      ensures ending.Reboots? ==> flash.mem[..] == Installed(baseline, received)
      ensures !ending.Reboots? ==> Valid() && flash.mem[..] == old(flash.mem[..])
    {
      hide Written, Installed, Moved;
      if upgrade == null { return Crashes, UNANSWERED; }
      if !upgrade.TransferCompleted() { return GoesOn, 1; }
      ghost var off := Region(baseline);
      OverlayReadsBack(baseline, off, received);
      var actual := sha(flash.mem[upgrade.bufferAddr - FLASH_BASE..upgrade.bufferAddr - FLASH_BASE + upgrade.imagelen]);
      assert flash.mem[off..off + |received|] == flash.mem[..][off..off + |received|];
      if actual != upgrade.upstreamHash { return GoesOn, 2; }
      FlashMove(flash, upgrade.bufferAddr, upgrade.imagelen);
      return Reboots, UNANSWERED;
    }
  }

  // The flash with an image installed: image, erased up to the reserve, reserve as in the baseline.
  ghost function Installed(m: seq<bv8>, image: seq<bv8>): seq<bv8>
    requires |m| == FLASH_SIZE && |image| <= CAPACITY
  {
    image + seq(CAPACITY - |image|, i => ERASED_BYTE) + m[CAPACITY..]
  }

  // The flash a session leaves behind, given what it was before the first request.
  ghost function FlashAfter(m: seq<bv8>, s: Session): seq<bv8>
    requires Programmable(m)
    requires s.Uploading? ==> |s.received| <= CAPACITY - Region(m)
    requires s.Rebooted? ==> |s.image| <= CAPACITY
  {
    match s
    case Uploading(_, _, received) => Written(m, Region(m), received)
    case Rebooted(image) => Installed(m, image)
    case _ => m
  }

  // One request.
  method Answer(flasher: FirmwareFlasher, r: Request) returns (ending: Ending, code: int)
    requires flasher.Valid() && (r.Stream? ==> |r.payload| < Base64.SIZE_T)
    modifies flasher, flasher.upgrade, flasher.writer, flasher.writer.buf, flasher.flash.mem
    ensures flasher.baseline == old(flasher.baseline)
    ensures Next(flasher.sha, flasher.Capacity(), old(flasher.Session()), r) ==
            match ending
            case GoesOn => (flasher.Session(), code)
            case Reboots => (Rebooted(flasher.received), code)
            case Crashes => (NullDereference, code)
    ensures ending.GoesOn? ==> flasher.Valid()
    ensures ending.GoesOn? ==>
              flasher.upgrade == old(flasher.upgrade) || flasher.upgrade == null || fresh(flasher.upgrade)
    ensures ending.Crashes? ==> old(flasher.Session()).Idle? && flasher.flash.mem[..] == old(flasher.flash.mem[..])
    ensures ending.Reboots? ==> flasher.flash.mem[..] == Installed(flasher.baseline, flasher.received)
  {
    hide Base64.Decoded, StreamCode, Installed, Written;
    ending := GoesOn;
    match r {
      case Init(imagelen, hash) =>
        ending, code := flasher.Init(imagelen, hash);
        assert r == Request.Init(imagelen, hash);
      case Stream(payload) =>
        code := flasher.Stream(payload);
        assert r == Request.Stream(payload);
      case Abort => code := flasher.Abort();
      case Complete => ending, code := flasher.Complete();
    }
  }

  /** Serves any list of requests.  What the flash holds afterwards depends on the first contents
      and the session only; in particular nothing but a complete, hash-checked image is ever moved
      over the code, and an aborted or refused upload leaves no trace. */
  method Serve(flasher: FirmwareFlasher, requests: seq<Request>) returns (answers: seq<int>)
    requires flasher.Valid() && flasher.upgrade == null
    requires forall r | r in requests && r.Stream? :: |r.payload| < Base64.SIZE_T
    modifies flasher, flasher.writer, flasher.writer.buf, flasher.flash.mem
    ensures var m := old(flasher.baseline);
            var (s, log) := Run(flasher.sha, CAPACITY - Region(m), requests);
            && Justified(flasher.sha, CAPACITY - Region(m), s, log) && flasher.flash.mem[..] == FlashAfter(m, s)
            && |answers| == |log| && forall k | 0 <= k < |log| :: answers[k] == log[k].code
    ensures flasher.flash.mem[0x7B_0000..] == old(flasher.flash.mem[0x7B_0000..])
  {
    hide Base64.Decoded, StreamCode, Installed, Written, AcceptedPayload, Announced;
    ghost var m := flasher.baseline;
    ghost var capacity := CAPACITY - Region(m);
    ghost var s, log := Run(flasher.sha, capacity, []).0, Run(flasher.sha, capacity, []).1;
    var running, i := true, 0;
    answers := [];
    while i < |requests|
      invariant 0 <= i <= |requests|
      invariant (s, log) == Run(flasher.sha, capacity, requests[..i]) && Justified(flasher.sha, capacity, s, log)
      invariant running ==> flasher.Valid() && flasher.baseline == m && s == flasher.Session()
      invariant running ==> flasher.upgrade == null || fresh(flasher.upgrade)
      invariant !running ==> s.Rebooted? || s.NullDereference?
      invariant flasher.flash.mem[..] == FlashAfter(m, s)
      invariant |answers| == |log| && forall k | 0 <= k < |log| :: answers[k] == log[k].code
    {
      var r := requests[i];
      ghost var next := Next(flasher.sha, capacity, s, r);
      StepIsJustified(flasher.sha, capacity, s, log, r);
      assert requests[..i + 1][..i] == requests[..i];
      var code := UNANSWERED;
      if running {
        var ending;
        ending, code := Answer(flasher, r);
        running := ending.GoesOn?;
      }
      answers := answers + [code];
      s, log := next.0, log + [Entry(r, next.1)];
      i := i + 1;
    }
    assert requests[..i] == requests;
    ReserveKept(m, s);
    assert flasher.flash.mem[0x7B_0000..] == flasher.flash.mem[..][0x7B_0000..];
    assert m[0x7B_0000..] == old(flasher.flash.mem[..])[0x7B_0000..];
  }

  lemma ReserveKept(m: seq<bv8>, s: Session)
    requires Programmable(m)
    requires s.Uploading? ==> |s.received| <= CAPACITY - Region(m)
    requires s.Rebooted? ==> |s.image| <= CAPACITY
    ensures |m| == 0x80_0000 && FlashAfter(m, s)[0x7B_0000..] == m[0x7B_0000..]
  {
  }
}
