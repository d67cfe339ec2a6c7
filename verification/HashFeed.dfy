/** The software side of the hash co-processor: how message chunks are buffered and fed.

    The engine itself is a log of the work packets it was given.  What it computes is left open;
    what it is fed, and with which flags, is what this module is about. */
module HashFeed {
  const BLOCK_SIZE: nat := 128 // DCP_HASH_BLOCK_SIZE, two 512-bit blocks
  const SIZE_T: nat := 0x1_0000_0000

  datatype Flags = Flags(init: bool, term: bool)
  datatype Feed = Feed(flags: Flags, data: seq<bv8>)
  datatype HashState = StateInit | StateUpdate

  function Concat(feeds: seq<Feed>): seq<bv8> {
    if feeds == [] then [] else Concat(feeds[..|feeds| - 1]) + feeds[|feeds| - 1].data
  }

  function Flatten(inputs: seq<seq<bv8>>): seq<bv8> {
    if inputs == [] then [] else Flatten(inputs[..|inputs| - 1]) + inputs[|inputs| - 1]
  }

  lemma ConcatAppend(feeds: seq<Feed>, f: Feed)
    ensures Concat(feeds + [f]) == Concat(feeds) + f.data
  {
    assert (feeds + [f])[..|feeds|] == feeds;
  }

  lemma Regroup(fed: seq<bv8>, kept: seq<bv8>, message: seq<bv8>, k: nat)
    requires k <= |message|
    ensures fed + (kept + message[..k]) + message[k..] == (fed + kept) + message
    ensures fed + message[..k] + message[k..] == fed + message
  {
  }

  lemma FullBlocks(n: nat)
    ensures var full := n / 64 * 64;
            full % 64 == 0 && full <= n < full + 64 && (n >= 64 <==> full > 0)
  {
  }

  // Feeds of an unfinished message: whole 64-byte blocks, INIT on exactly the first, no TERM.
  ghost predicate Open(feeds: seq<Feed>) {
    forall i | 0 <= i < |feeds| ::
      feeds[i].flags == Flags(i == 0, false) && |feeds[i].data| % 64 == 0 && feeds[i].data != []
  }

  lemma OpenAppend(feeds: seq<Feed>, data: seq<bv8>)
    requires Open(feeds) && |data| % 64 == 0 && data != []
    ensures Open(feeds + [Feed(Flags(feeds == [], false), data)])
  {
  }

  // Feeds of a finished message: as before, then one last feed of any size with TERM.
  ghost predicate Closed(feeds: seq<Feed>) {
    var last := |feeds| - 1;
    last >= 0 && Open(feeds[..last]) && feeds[last].flags == Flags(last == 0, true)
  }

  class HashContext {
    const blk: array<bv8>
    var blksz: nat
    var state: HashState
    var ctrl0: Flags         // not set up by init
    var fullMessageSize: nat // uint32_t
    var feeds: seq<Feed>     // the engine's log

    ghost predicate Valid()
      reads this, blk
    {
      && blk.Length == BLOCK_SIZE && blksz <= BLOCK_SIZE
      && Open(feeds)
      && (state == StateInit <==> feeds == [])
      && (state == StateUpdate ==> ctrl0 == Flags(false, false))
    }

    // Everything taken in so far: what was fed and what waits in the block buffer.
    ghost function Message(): seq<bv8>
      requires blksz <= blk.Length
      reads this, blk
    {
      Concat(feeds) + blk[..blksz]
    }

    constructor (garbage: Flags)
      ensures Valid() && fresh(blk) && Message() == [] && feeds == [] && fullMessageSize == 0
    {
      blk := new bv8[BLOCK_SIZE](i => 0);
      blksz, state, ctrl0, fullMessageSize, feeds := 0, StateInit, garbage, 0, [];
    }

    // dcp_hash_update: one work packet, then both flags are cleared.
    method FeedEngine(data: seq<bv8>)
      modifies this`feeds, this`ctrl0
      ensures feeds == old(feeds) + [Feed(old(ctrl0), data)] && ctrl0 == Flags(false, false)
      ensures Concat(feeds) == Concat(old(feeds)) + data
    {
      ConcatAppend(feeds, Feed(ctrl0, data));
      feeds := feeds + [Feed(ctrl0, data)];
      ctrl0 := Flags(false, false);
    }

    method CopyToBlock(at: nat, data: seq<bv8>)
      requires at + |data| <= blk.Length
      modifies blk
      ensures blk[..at + |data|] == old(blk[..at]) + data
    {
      forall i | 0 <= i < |data| { blk[at + i] := data[i]; }
    }

    // Called with more than a block's worth in sight: fills and feeds the block buffer, feeds the
    // full 64-byte blocks of the message, keeps the rest.
    method ProcessMessageData(message: seq<bv8>)
      requires blk.Length == BLOCK_SIZE && blksz <= BLOCK_SIZE < blksz + |message|
      requires Open(feeds) && ctrl0 == Flags(feeds == [], false)
      modifies this, blk
      ensures blksz < 64 && Open(feeds) && feeds != [] && ctrl0 == Flags(false, false)
      ensures state == old(state) && fullMessageSize == old(fullMessageSize)
      ensures Message() == old(Message()) + message
    {
      hide Concat, Open;
      ghost var before, fed, kept := Message(), Concat(feeds), blk[..blksz];
      var rest := message;
      if blksz > 0 {
        var toCopy := BLOCK_SIZE - blksz;
        CopyToBlock(blksz, rest[..toCopy]);
        rest := rest[toCopy..];
        assert blk[..] == blk[..BLOCK_SIZE] == kept + message[..toCopy];
        OpenAppend(feeds, blk[..]);
        FeedEngine(blk[..]);
        assert Concat(feeds) + rest == before + message by { Regroup(fed, kept, message, toCopy); }
      } else {
        assert before == fed + [] == fed;
      }
      FeedFullBlocks(rest);
    }

    // The second half of the above, with the block buffer already fed or empty.
    method FeedFullBlocks(message: seq<bv8>)
      requires blk.Length == BLOCK_SIZE && Open(feeds)
      requires ctrl0 == Flags(feeds == [], false) && (feeds == [] ==> |message| >= 64)
      modifies this, blk
      ensures blksz < 64 && Open(feeds) && feeds != [] && ctrl0 == Flags(false, false)
      ensures state == old(state) && fullMessageSize == old(fullMessageSize)
      ensures Message() == Concat(old(feeds)) + message
    {
      hide Concat, Open;
      ghost var fed := Concat(feeds);
      var rest, fullBlocksSize := message, |message| / 64 * 64;
      FullBlocks(|message|);
      if fullBlocksSize > 0 {
        OpenAppend(feeds, rest[..fullBlocksSize]);
        FeedEngine(rest[..fullBlocksSize]);
        rest := rest[fullBlocksSize..];
        assert Concat(feeds) + rest == fed + message by { Regroup(fed, [], message, fullBlocksSize); }
      }
      CopyToBlock(0, rest);
      blksz := |rest|;
      assert blk[..blksz] == rest;
    }

    /** Takes in a chunk of any length.  Up to 128 bytes are kept back; more than that, and all but less
        than 64 of them are fed. */
    method Update(input: seq<bv8>)
      requires Valid() && |input| + BLOCK_SIZE < SIZE_T
      modifies this, blk
      ensures Valid() && Message() == old(Message()) + input
      ensures fullMessageSize == (old(fullMessageSize) + |input|) % 0x1_0000_0000
      ensures if old(blksz) + |input| <= 128 then blksz == old(blksz) + |input| && feeds == old(feeds)
              else blksz < 64
    {
      fullMessageSize := (fullMessageSize + |input|) % SIZE_T;
      if blksz + |input| <= BLOCK_SIZE {
        ghost var kept := blk[..blksz];
        CopyToBlock(blksz, input);
        blksz := blksz + |input|;
        assert blk[..blksz] == kept + input;
        return;
      }
      if state != StateUpdate {
        ctrl0 := Flags(true, false);
        state := StateUpdate;
      }
      ProcessMessageData(input);
    }

    /** Feeds what is left with TERM set. */
    method Finish()
      requires Valid()
      modifies this
      ensures Closed(feeds) && Concat(feeds) == old(Message())
    {
      if state == StateInit { ctrl0 := Flags(true, false); }
      ctrl0 := ctrl0.(term := true);
      ghost var n := |feeds|;
      ghost var earlier := feeds;
      FeedEngine(blk[..blksz]);
      assert feeds[..n] == earlier;
    }
  }

  /** However a message is cut into chunks, the engine is fed exactly the message, in whole 512-bit
      blocks up to the last feed, with INIT on the first feed and TERM on the last; what the flags
      hold before the first feed does not matter. */
  method HashChunks(inputs: seq<seq<bv8>>, garbage: Flags) returns (feeds: seq<Feed>)
    requires forall c | c in inputs :: |c| + BLOCK_SIZE < SIZE_T
    ensures Closed(feeds) && Concat(feeds) == Flatten(inputs)
  {
    var ctx := new HashContext(garbage);
    var i := 0;
    while i < |inputs|
      invariant 0 <= i <= |inputs| && ctx.Valid() && fresh(ctx) && fresh(ctx.blk)
      invariant ctx.Message() == Flatten(inputs[..i])
    {
      ctx.Update(inputs[i]);
      assert inputs[..i + 1][..i] == inputs[..i];
      i := i + 1;
    }
    assert inputs[..i] == inputs;
    ctx.Finish();
    feeds := ctx.feeds;
  }
}
