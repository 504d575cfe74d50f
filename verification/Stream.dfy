/** The compact-range stream: one cache read per height, with the cache free to be rewound and
    refilled between any two reads. */
module Stream {
  import opened Chain
  import opened CacheStore
  import opened PollerSafety

  datatype Read = Present(block: Block) | Absent | ReadError

  /** How a stream ended; `Gone` is a client that stopped taking messages. */
  datatype Ending = Finished | Discontinuity | Failure | Gone

  /** Read number `n` of the stream, at `height`, in whatever state the cache is by then. */
  type Views = (nat, nat) -> Read

  /** The blocks sent are the reads, at consecutive heights from `start`, each extending the last. */
  ghost predicate Sent(sent: seq<Block>, views: Views, start: nat) {
    && (forall i :: 0 <= i < |sent| ==> views(i, start + i) == Present(sent[i]) && sent[i].height == start + i)
    && (forall i :: 0 < i < |sent| ==> IsSuccessor(sent[i - 1], sent[i]))
  }

  /** What the next read must give for the stream to go on. */
  predicate Continues(sent: seq<Block>, start: nat, b: Block) {
    if sent == [] then b.height == start else IsSuccessor(sent[|sent| - 1], b)
  }

  /** Heights start, ..., end; none when `start` is past `end`. */
  function Span(start: nat, end: nat): nat {
    if start > end then 0 else end + 1 - start
  }

  /** `taken(n)` says whether the client takes message `n`. */
  method SpawnCompactRange(views: Views, taken: nat -> bool, start: nat, end: nat)
    returns (sent: seq<Block>, ending: Ending)
    ensures Sent(sent, views, start) && |sent| <= Span(start, end)
    ensures match ending
            case Finished => |sent| == Span(start, end)
            case Gone => |sent| < Span(start, end) && !taken(|sent|)
            case Failure => |sent| < Span(start, end) && views(|sent|, start + |sent|) == ReadError
            case Discontinuity =>
              && |sent| < Span(start, end)
              && var next := views(|sent|, start + |sent|);
              next == Absent || (next.Present? && !Continues(sent, start, next.block))
  {
    sent := [];
    var prev: Option<Block> := None;
    var height := start;
    while height <= end
      invariant start <= height && (height <= end + 1 || height == start) && |sent| == height - start
      invariant Sent(sent, views, start)
      invariant prev == if sent == [] then None else Some(sent[|sent| - 1])
    {
      var read := views(height - start, height);
      match read
      case Absent => return sent, Discontinuity;
      case ReadError => return sent, Failure;
      case Present(block) =>
        if prev.Some? {
          if !IsSuccessor(prev.value, block) {
            return sent, Discontinuity;
          }
        } else if block.height != start {
          return sent, Discontinuity;
        }
        if !taken(height - start) {
          return sent, Gone;
        }
        sent := sent + [block];
        prev := Some(block);
        height := height + 1;
    }
    ending := Finished;
  }

  /** Every read returned a genuine block, as any held chain does. */
  ghost predicate ReadsGenuine(views: Views) {
    forall n: nat, h: nat :: views(n, h).Present? ==> Genuine(views(n, h).block)
  }

  lemma SentIsLinked(sent: seq<Block>, views: Views, start: nat)
    requires Sent(sent, views, start) && ReadsGenuine(views)
    ensures Linked(sent)
  {
  }

  /** At every moment of the stream, every block sent is an ancestor of the last one sent, on any
      fork that contains that last block, however the cache moved between the reads. */
  lemma SentIsOneFork(sent: seq<Block>, views: Views, start: nat, now: nat, fork: seq<Block>, i: nat)
    requires Sent(sent, views, start) && ReadsGenuine(views) && 0 < now <= |sent| && i < now
    requires Linked(fork) && |fork| >= now && fork[|fork| - 1].hash == sent[now - 1].hash
    ensures SameBareBlock(sent[i], fork[|fork| - now + i])
  {
    SentIsLinked(sent, views, start);
    assert Linked(sent[..now]);
    OneHistory(sent[..now], fork, now - 1 - i);
  }

  lemma ParentIsHeld(i: Index, b: Block, next: Block, h: nat)
    requires ChainHeld(i) && h + 1 in i.blocks && SameBareBlock(next, i.blocks[h + 1])
    requires Genuine(b) && IsSuccessor(b, next) && b.height == h
    ensures h in i.blocks && SameBareBlock(b, i.blocks[h])
  {
    assert h + 1 < Held(i) && LinkedAt(i, h + 1);
    HashFixesBlock(b, i.blocks[h]);
  }

  /** If the last block sent is still cached, so is everything the client was sent. */
  lemma {:induction false} SentIsCached(sent: seq<Block>, views: Views, start: nat, s: Store, i: nat)
    requires Sent(sent, views, start) && ReadsGenuine(views) && i < |sent|
    requires ChainHeld(s.index) && start + |sent| - 1 in s.index.hashes
    requires s.index.hashes[start + |sent| - 1] == sent[|sent| - 1].hash
    ensures start + i in s.index.blocks && SameBareBlock(sent[i], s.index.blocks[start + i])
    decreases |sent| - i
  {
    SentIsLinked(sent, views, start);
    var h := start + i;
    if i == |sent| - 1 {
      HashFixesBlock(sent[i], s.index.blocks[h]);
    } else {
      hide ChainHeld;
      SentIsCached(sent, views, start, s, i + 1);
      ParentIsHeld(s.index, sent[i], sent[i + 1], h);
    }
  }
}
