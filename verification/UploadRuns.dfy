/** Which requests the updater takes, in terms of sizes alone, and whole uploads: what has to be sent
    for the device to install an image. */
module UploadRuns {
  import opened FirmwareUpdate
  import opened FlashMemory
  import opened Sequences
  import Base64

  function Code(log: seq<Entry>): int
    requires log != []
  {
    log[|log| - 1].code
  }

  // The answer to one more request, and the session after it.
  function Answered(sha: seq<bv8> -> Digest, capacity: nat, requests: seq<Request>, r: Request): (a: (Session, int)) {
    var (s, log) := Run(sha, capacity, requests + [r]);
    (s, if log == [] then 0 else Code(log))
  }

  lemma OneMoreRequest(sha: seq<bv8> -> Digest, capacity: nat, requests: seq<Request>, r: Request)
    ensures var (s, log) := Run(sha, capacity, requests);
            var (s', code) := Next(sha, capacity, s, r);
            Run(sha, capacity, requests + [r]) == (s', log + [Entry(r, code)])
    ensures Answered(sha, capacity, requests, r) == Next(sha, capacity, Run(sha, capacity, requests).0, r)
  {
    hide Next;
    assert (requests + [r])[..|requests|] == requests;
  }

  /** The answer to a chunk, after any requests: every code has exactly one reason, in sizes of the
      upload so far, the text and the bytes it decodes to. */
  lemma ChunkCodesExactly(sha: seq<bv8> -> Digest, capacity: nat, requests: seq<Request>, payload: seq<bv8>)
    ensures var s, (s', code) := Run(sha, capacity, requests).0, Answered(sha, capacity, requests, Stream(payload));
            var chars, bytes := |payload|, |Base64.Decoded(payload)|;
            && (s.Rebooted? || s.NullDereference? <==> code == -1)
            && (s.Idle? <==> code == 1)
            && (s.Uploading? ==>
                  var missing := s.imagelen - |s.received|;
                  && missing >= 0
                  && (code == 0 <==> chars % 4 == 0 && 0 < bytes <= 1536 && bytes <= missing && bytes % 4 == 0)
                  && (code == 2 <==> missing == 0 || (chars > 0 && chars % 4 == 0 && (bytes == 0 || bytes > 1536)))
                  && (code == 3 <==> missing > 0 && chars == 0)
                  && (code == 4 <==> missing > 0 && chars % 4 != 0)
                  && (code == 7 <==> 0 < missing < bytes <= 1536 && chars % 4 == 0)
                  && (code == 8 <==> 0 < bytes <= 1536 && bytes <= missing && chars % 4 == 0 && bytes % 4 != 0)
                  && s' == if code == 0 then s.(received := s.received + Base64.Decoded(payload)) else s)
            && (!s.Uploading? ==> s' == s)
  {
    hide Base64.Decoded, Run, AcceptedPayload, Announced;
    OneMoreRequest(sha, capacity, requests, Stream(payload));
    RunIsJustified(sha, capacity, requests);
    if payload == [] { NothingDecoded(); }
  }

  lemma NothingDecoded()
    ensures Base64.Decoded([]) == []
  {
  }

  /** The answers to the other requests. */
  lemma OtherCodesExactly(sha: seq<bv8> -> Digest, capacity: nat, requests: seq<Request>, imagelen: nat, hash: Digest)
    ensures var s := Run(sha, capacity, requests).0;
            var init := Answered(sha, capacity, requests, Init(imagelen, hash));
            var abort := Answered(sha, capacity, requests, Abort);
            var complete := Answered(sha, capacity, requests, Complete);
            && (s.Idle? ==>
                  && init == (if imagelen <= capacity then (Uploading(imagelen, hash, []), 0)
                              else (NullDereference, -1))
                  && abort == (Idle, 1) && complete == (NullDereference, -1))
            && (s.Uploading? ==>
                  && init == (s, 1) && abort == (Idle, 1)
                  && complete == (if |s.received| < s.imagelen then (s, 1)
                                  else if sha(s.received) != s.hash then (s, 2)
                                  else (Rebooted(s.received), -1)))
            && (s.Rebooted? || s.NullDereference? ==> init == abort == complete == (s, -1))
  {
    hide Run, AcceptedPayload, Announced, StreamCode;
    OneMoreRequest(sha, capacity, requests, Init(imagelen, hash));
    OneMoreRequest(sha, capacity, requests, Abort);
    OneMoreRequest(sha, capacity, requests, Complete);
    RunIsJustified(sha, capacity, requests);
  }

  // ---------------------------------------------------------------- whole uploads

  function Chunks(payloads: seq<seq<bv8>>): (r: seq<Request>)
    ensures |r| == |payloads|
  {
    seq(|payloads|, k requires 0 <= k < |payloads| => Stream(payloads[k]))
  }

  // What the payloads decode to, one behind the other.
  function Image(payloads: seq<seq<bv8>>): seq<bv8> {
    if payloads == [] then [] else
      Image(payloads[..|payloads| - 1]) + Base64.Decoded(payloads[|payloads| - 1])
  }

  // A chunk the updater has no reason of its own to refuse.
  predicate WellSized(payload: seq<bv8>) {
    |payload| % 4 == 0 && 0 < |Base64.Decoded(payload)| <= 1536 && |Base64.Decoded(payload)| % 4 == 0
  }

  function Upload(imagelen: nat, hash: Digest, payloads: seq<seq<bv8>>): seq<Request> {
    [Init(imagelen, hash)] + Chunks(payloads)
  }

  lemma OneChunkLess(imagelen: nat, hash: Digest, payloads: seq<seq<bv8>>)
    requires payloads != []
    ensures var n := |payloads| - 1;
            Upload(imagelen, hash, payloads) == Upload(imagelen, hash, payloads[..n]) + [Stream(payloads[n])]
  {
  }

  lemma StartsUpload(sha: seq<bv8> -> Digest, capacity: nat, imagelen: nat, hash: Digest)
    requires imagelen <= capacity
    ensures Run(sha, capacity, Upload(imagelen, hash, [])) ==
            (Uploading(imagelen, hash, []), [Entry(Init(imagelen, hash), 0)])
  {
    hide Next;
    assert Upload(imagelen, hash, []) == [] + [Init(imagelen, hash)];
    RunsNothing(sha, capacity);
    OneMoreRequest(sha, capacity, [], Init(imagelen, hash));
    OtherCodesExactly(sha, capacity, [], imagelen, hash);
    var e := Entry(Init(imagelen, hash), 0);
    assert [] + [e] == [e];
  }

  ghost predicate AllTaken(log: seq<Entry>, n: nat) {
    |log| == n && forall k | 0 <= k < n :: log[k].code == 0
  }

  /** Every chunk of a well-sized upload that does not exceed the announced length is taken. */
  lemma {:induction false} UploadGoesOn(sha: seq<bv8> -> Digest, capacity: nat, imagelen: nat, hash: Digest,
                                        payloads: seq<seq<bv8>>)
    requires imagelen <= capacity && (forall p | p in payloads :: WellSized(p)) && |Image(payloads)| <= imagelen
    ensures var (s, log) := Run(sha, capacity, Upload(imagelen, hash, payloads));
            s == Uploading(imagelen, hash, Image(payloads)) && AllTaken(log, |payloads| + 1)
  {
    hide Base64.Decoded, Run, Next, Upload;
    if payloads == [] {
      StartsUpload(sha, capacity, imagelen, hash);
    } else {
      var n := |payloads| - 1;
      var before := Upload(imagelen, hash, payloads[..n]);
      assert WellSized(payloads[n]) && forall p | p in payloads[..n] :: p in payloads;
      UploadGoesOn(sha, capacity, imagelen, hash, payloads[..n]);
      OneChunkLess(imagelen, hash, payloads);
      OneMoreRequest(sha, capacity, before, Stream(payloads[n]));
      ChunkCodesExactly(sha, capacity, before, payloads[n]);
    }
  }

  /** From idle, for every length within the region, every hash and every list of well-sized chunks
      that decode to exactly that many bytes: init and all chunks are answered 0, and complete reboots
      into what they decode to if and only if its hash is the announced one, and is answered 2
      otherwise. */
  lemma UploadCompletes(sha: seq<bv8> -> Digest, capacity: nat, imagelen: nat, hash: Digest, payloads: seq<seq<bv8>>)
    requires imagelen <= capacity && (forall p | p in payloads :: WellSized(p)) && |Image(payloads)| == imagelen
    ensures var (s, log) := Run(sha, capacity, Upload(imagelen, hash, payloads) + [Complete]);
            && |log| == |payloads| + 2 && (forall k | 0 <= k <= |payloads| :: log[k].code == 0)
            && (s == Rebooted(Image(payloads)) <==> sha(Image(payloads)) == hash)
            && log[|payloads| + 1].code == (if sha(Image(payloads)) == hash then -1 else 2)
            && (sha(Image(payloads)) != hash ==> s == Uploading(imagelen, hash, Image(payloads)))
  {
    hide Base64.Decoded, Run, Next, Upload, Image, WellSized;
    var requests := Upload(imagelen, hash, payloads);
    UploadGoesOn(sha, capacity, imagelen, hash, payloads);
    OneMoreRequest(sha, capacity, requests, Complete);
    OtherCodesExactly(sha, capacity, requests, imagelen, hash);
  }

  /** The same on the flash: the image is in place afterwards if its hash is the announced one, and
      else waits in the buffer region. */
  method ServeUpload(flasher: FirmwareFlasher, imagelen: nat, hash: Digest, payloads: seq<seq<bv8>>)
    returns (answers: seq<int>)
    requires flasher.Valid() && flasher.upgrade == null && imagelen <= flasher.Capacity()
    requires forall p | p in payloads :: WellSized(p) && |p| < Base64.SIZE_T
    requires |Image(payloads)| == imagelen
    modifies flasher, flasher.writer, flasher.writer.buf, flasher.flash.mem
    ensures |answers| == |payloads| + 2 && forall k | 0 <= k <= |payloads| :: answers[k] == 0
    ensures var m := old(flasher.baseline);
            if flasher.sha(Image(payloads)) == hash
            then answers[|payloads| + 1] == -1 && flasher.flash.mem[..] == Installed(m, Image(payloads))
                 && flasher.flash.mem[..imagelen] == Image(payloads)
                 && forall i | imagelen <= i < 0x7B_0000 :: flasher.flash.mem[i] == 0xFF
            else answers[|payloads| + 1] == 2
                 && flasher.flash.mem[..] == Written(m, Region(m), Image(payloads))
  {
    hide Base64.Decoded, Run, Next, Image, WellSized, Installed, Written, Justified;
    UploadCompletes(flasher.sha, flasher.Capacity(), imagelen, hash, payloads);
    answers := Serve(flasher, Upload(imagelen, hash, payloads) + [Complete]);
    InPlace(old(flasher.baseline), Image(payloads));
    ghost var after := flasher.flash.mem[..];
    assert flasher.flash.mem[..imagelen] == after[..imagelen];
    assert forall i | imagelen <= i < 0x7B_0000 :: flasher.flash.mem[i] == after[i];
  }

  // The image at the bottom, erased flash up to the reserve.
  lemma InPlace(m: seq<bv8>, image: seq<bv8>)
    requires |m| == 0x80_0000 && |image| <= 0x7B_0000
    ensures Installed(m, image)[..|image|] == image
    ensures forall i | |image| <= i < 0x7B_0000 :: Installed(m, image)[i] == 0xFF
  {
  }

  // ---------------------------------------------------------------- images sent in pieces

  function Encodings(pieces: seq<seq<bv8>>): (p: seq<seq<bv8>>)
    ensures |p| == |pieces|
  {
    seq(|pieces|, k requires 0 <= k < |pieces| => Base64.Encoded(pieces[k]))
  }

  function Glued(pieces: seq<seq<bv8>>): seq<bv8> {
    if pieces == [] then [] else Glued(pieces[..|pieces| - 1]) + pieces[|pieces| - 1]
  }

  lemma EncodedPiece(piece: seq<bv8>)
    requires 0 < |piece| <= 1536 && |piece| % 4 == 0
    ensures WellSized(Base64.Encoded(piece)) && Base64.Decoded(Base64.Encoded(piece)) == piece
  {
    hide Base64.Encoded, Base64.Decoded;
    Base64.RoundTrip(piece);
  }

  lemma {:induction false} EncodedPieces(pieces: seq<seq<bv8>>)
    requires forall p | p in pieces :: 0 < |p| <= 1536 && |p| % 4 == 0
    ensures forall p | p in Encodings(pieces) :: WellSized(p)
    ensures Image(Encodings(pieces)) == Glued(pieces)
  {
    hide Base64.Encoded, Base64.Decoded, WellSized;
    forall k | 0 <= k < |pieces| ensures WellSized(Encodings(pieces)[k]) {
      assert pieces[k] in pieces;
      EncodedPiece(pieces[k]);
    }
    if pieces == [] {
    } else {
      var n := |pieces| - 1;
      EncodedPieces(pieces[..n]);
      assert Encodings(pieces)[..n] == Encodings(pieces[..n]);
      assert pieces[n] in pieces;
      EncodedPiece(pieces[n]);
    }
  }

  /** However an image is cut into pieces of up to 1536 bytes, whole words each: sent encoded, under
      its length and hash, it is what the device reboots into. */
  lemma ImageInstalls(sha: seq<bv8> -> Digest, capacity: nat, pieces: seq<seq<bv8>>)
    requires (forall p | p in pieces :: 0 < |p| <= 1536 && |p| % 4 == 0) && |Glued(pieces)| <= capacity
    ensures var image := Glued(pieces);
            Run(sha, capacity, Upload(|image|, sha(image), Encodings(pieces)) + [Complete]).0 == Rebooted(image)
  {
    hide Run, Upload, WellSized, Image;
    EncodedPieces(pieces);
    UploadCompletes(sha, capacity, |Glued(pieces)|, sha(Glued(pieces)), Encodings(pieces));
  }
}
