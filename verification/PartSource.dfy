/** A range of a virtual file stored as numbered part objects: split, fetched with retries, assembled in any order. */
module PartSource {
  import RecordCodec

  type byte = RecordCodec.byte

  datatype Piece = Piece(part: nat, first: nat, length: nat, dest: nat) {
    /** The inclusive last position asked for, as in section 14.1.2 of RFC 9110. */
    function LastPosition(): int { first + length - 1 }
  }

  datatype Plan = Pieces(pieces: seq<Piece>) | BeyondParts(absolute: nat)

  /** The pieces are laid end to end over [0, written), none of them empty or outside its part. */
  ghost predicate Tiles(pieces: seq<Piece>, offset: nat, written: nat, partSize: nat, partCount: nat) {
    && (forall i :: 0 <= i < |pieces| ==> Placed(pieces[i], offset, partSize, partCount))
    && (forall i :: 0 <= i < |pieces| ==> Follows(pieces, i, written))
    && (|pieces| == 0 ==> written == 0)
  }

  predicate Placed(p: Piece, offset: nat, partSize: nat, partCount: nat) {
    && p.length > 0 && p.part < partCount && p.first <= p.LastPosition() < partSize
    && p.part * partSize + p.first == offset + p.dest
  }

  predicate Follows(pieces: seq<Piece>, i: nat, written: nat)
    requires i < |pieces|
  {
    && (i == 0 ==> pieces[i].dest == 0)
    && pieces[i].dest + pieces[i].length == if i + 1 < |pieces| then pieces[i + 1].dest else written
  }

  lemma Position(absolute: nat, size: nat)
    requires size > 0
    ensures absolute / size * size + absolute % size == absolute
    ensures absolute - absolute / size * size == absolute % size
  {}

  lemma AtMost(a: nat, b: nat, size: nat)
    requires a <= b
    ensures a * size <= b * size
  {}

  lemma PartBeyond(absolute: nat, size: nat, count: nat)
    requires size > 0
    ensures absolute / size >= count <==> absolute >= count * size
  {
    Position(absolute, size);
    if absolute / size >= count {
      AtMost(count, absolute / size, size);
    } else {
      AtMost(absolute / size + 1, count, size);
      assert (absolute / size + 1) * size == absolute / size * size + size;
    }
  }

  lemma NothingPlanned(offset: nat, partSize: nat, partCount: nat)
    ensures Tiles([], offset, 0, partSize, partCount)
  {}

  /** The piece cut at the next unplanned position. */
  lemma NextPiece(offset: nat, length: nat, written: nat, partSize: nat, partCount: nat)
    requires partSize > 0 && written < length
    ensures
      var absolute := offset + written;
      var part := absolute / partSize;
      var first := absolute - part * partSize;
      && (part >= partCount <==> absolute >= partCount * partSize)
      && 0 <= first < partSize
      && (part < partCount ==>
           var size := if length - written < partSize - first then length - written else partSize - first;
           && offset + written + size <= partCount * partSize
           && Placed(Piece(part, first, size, written), offset, partSize, partCount))
  {
    var absolute := offset + written;
    var part := absolute / partSize;
    PartBeyond(absolute, partSize, partCount);
    Position(absolute, partSize);
    if part < partCount {
      AtMost(part + 1, partCount, partSize);
      OneMore(part, partSize);
    }
  }

  lemma OneMore(part: nat, size: nat)
    ensures (part + 1) * size == part * size + size
  {}

  /** Each piece runs to the end of its part or of the range, so no part is asked for in two pieces. */
  ghost predicate WholePieces(pieces: seq<Piece>, partSize: nat, length: nat) {
    forall i :: 0 <= i < |pieces| ==> WholePiece(pieces[i], partSize, length)
  }

  predicate WholePiece(p: Piece, partSize: nat, length: nat) {
    p.first + p.length == partSize || p.dest + p.length == length
  }

  lemma WholePiecesNext(pieces: seq<Piece>, p: Piece, partSize: nat, length: nat)
    requires WholePieces(pieces, partSize, length) && WholePiece(p, partSize, length)
    ensures WholePieces(pieces + [p], partSize, length)
  {}

  method PlanPieces(offset: nat, length: nat, partSize: nat, partCount: nat) returns (plan: Plan)
    requires partSize > 0
    ensures plan.Pieces? <==> length == 0 || offset + length <= partCount * partSize
    ensures plan.Pieces? ==> Tiles(plan.pieces, offset, length, partSize, partCount)
    ensures plan.Pieces? ==> WholePieces(plan.pieces, partSize, length)
    ensures plan.BeyondParts? ==> plan.absolute == if offset < partCount * partSize then partCount * partSize else offset
  {
    hide Tiles, Placed, Follows, WholePieces;
    var pieces, written := [], 0;
    NoPieces(partSize, length);
    NothingPlanned(offset, partSize, partCount);
    while written < length
      invariant written <= length && Tiles(pieces, offset, written, partSize, partCount)
      invariant written > 0 ==> offset + written <= partCount * partSize
      invariant WholePieces(pieces, partSize, length)
      decreases length - written
    {
      var absolute := offset + written;
      var part := absolute / partSize;
      NextPiece(offset, length, written, partSize, partCount);
      if part >= partCount { return BeyondParts(absolute); }
      var first := absolute - part * partSize;
      var size := if length - written < partSize - first then length - written else partSize - first;
      var piece := Piece(part, first, size, written);
      Appended(pieces, piece, offset, written, partSize, partCount);
      WholePiecesNext(pieces, piece, partSize, length);
      pieces, written := pieces + [piece], written + size;
    }
    plan := Pieces(pieces);
  }

  lemma NoPieces(partSize: nat, length: nat)
    ensures WholePieces([], partSize, length)
  {}

  lemma Appended(pieces: seq<Piece>, p: Piece, offset: nat, written: nat, partSize: nat, partCount: nat)
    requires Tiles(pieces, offset, written, partSize, partCount)
    requires Placed(p, offset, partSize, partCount) && p.dest == written
    ensures Tiles(pieces + [p], offset, written + p.length, partSize, partCount)
  {
    hide Placed;
    var all := pieces + [p];
    var end: nat := written + p.length;
    forall i | 0 <= i < |all| ensures Follows(all, i, end) {
      if i < |pieces| { assert Follows(pieces, i, written); }
    }
  }

  /** The pieces before piece i end where it starts. */
  lemma {:induction false} EarlierEndsFirst(
    pieces: seq<Piece>, i: nat, j: nat, offset: nat, length: nat, partSize: nat, partCount: nat)
    requires Tiles(pieces, offset, length, partSize, partCount) && i < j < |pieces|
    ensures pieces[i].dest + pieces[i].length <= pieces[j].dest
    decreases j
  {
    assert Follows(pieces, j - 1, length) && Placed(pieces[j - 1], offset, partSize, partCount);
    if i < j - 1 { EarlierEndsFirst(pieces, i, j - 1, offset, length, partSize, partCount); }
  }

  lemma {:induction false} EndsInside(pieces: seq<Piece>, i: nat, offset: nat, length: nat, partSize: nat, partCount: nat)
    requires Tiles(pieces, offset, length, partSize, partCount) && i < |pieces|
    ensures pieces[i].dest + pieces[i].length <= length
    decreases |pieces| - i
  {
    assert Follows(pieces, i, length);
    if i + 1 < |pieces| { EndsInside(pieces, i + 1, offset, length, partSize, partCount); }
  }

  /** Every position of the buffer belongs to a piece. */
  lemma {:induction false} CoveredUpTo(
    pieces: seq<Piece>, n: nat, k: nat, offset: nat, length: nat, partSize: nat, partCount: nat)
    returns (i: nat)
    requires Tiles(pieces, offset, length, partSize, partCount) && n < |pieces|
    requires k < pieces[n].dest + pieces[n].length
    ensures i <= n && pieces[i].dest <= k < pieces[i].dest + pieces[i].length
  {
    assert Follows(pieces, n, length);
    if pieces[n].dest <= k {
      i := n;
    } else {
      assert Follows(pieces, n - 1, length);
      i := CoveredUpTo(pieces, n - 1, k, offset, length, partSize, partCount);
    }
  }

  // ---- The stored object ----

  function Joined(parts: seq<seq<byte>>): (r: seq<byte>) {
    if parts == [] then [] else Joined(parts[..|parts| - 1]) + parts[|parts| - 1]
  }

  /** Every part is full, except that the last one may be shorter. */
  predicate Parted(parts: seq<seq<byte>>, partSize: nat) {
    && (forall p :: 0 <= p < |parts| ==> |parts[p]| <= partSize)
    && forall p :: 0 <= p < |parts| - 1 ==> |parts[p]| == partSize
  }

  lemma {:induction false} PrefixLength(parts: seq<seq<byte>>, partSize: nat)
    requires forall p :: 0 <= p < |parts| ==> |parts[p]| == partSize
    ensures |Joined(parts)| == |parts| * partSize
  {
    if parts == [] {
    } else {
      PrefixLength(parts[..|parts| - 1], partSize);
      OneMore(|parts| - 1, partSize);
    }
  }

  /** Part p holds the bytes of the whole from p * partSize on. */
  lemma {:induction false} PartOfWhole(parts: seq<seq<byte>>, partSize: nat, p: nat)
    requires Parted(parts, partSize) && p < |parts|
    ensures p * partSize + |parts[p]| <= |Joined(parts)|
    ensures Joined(parts)[p * partSize..p * partSize + |parts[p]|] == parts[p]
    ensures p < |parts| - 1 ==> p * partSize + partSize <= |Joined(parts)|
    ensures p == |parts| - 1 ==> p * partSize + |parts[p]| == |Joined(parts)|
  {
    var front := parts[..|parts| - 1];
    PrefixLength(front, partSize);
    if p < |front| {
      PartOfWhole(front, partSize, p);
      var a := p * partSize;
      assert Joined(parts)[a..a + |parts[p]|] == Joined(front)[a..a + |parts[p]|];
    }
  }

  // ---- Replies, retries and completion ----

  datatype Reply = Partial(body: seq<byte>) | Whole(body: seq<byte>) | Status(code: nat) | Broken

  /** Status 206 carries (a prefix of) the range asked for, status 200 the whole object; anything else is free. */
  predicate Honest(reply: Reply, part: seq<byte>, p: Piece) {
    match reply
    case Partial(body) => p.first + |body| <= |part| && |body| <= p.length && body == part[p.first..p.first + |body|]
    case Whole(body) => body == part
    case _ => true
  }

  predicate Accepted(reply: Reply, p: Piece) {
    (reply.Partial? || reply.Whole?) && |reply.body| == p.length
  }

  lemma AcceptedIsRight(reply: Reply, part: seq<byte>, p: Piece)
    requires Honest(reply, part, p) && Accepted(reply, p) && p.first + p.length <= |part|
    ensures reply.body == part[p.first..p.first + p.length]
  {}

  /**
   An accepted honest reply carries the right bytes exactly when the range lies inside the part. A range running past
   a short last part can still be accepted: a server that ignores ranges may answer with a whole part of that very length.
   */
  lemma WrongOnlyPastTheEnd(reply: Reply, part: seq<byte>, p: Piece)
    requires Honest(reply, part, p) && Accepted(reply, p)
    ensures p.first + p.length <= |part| ==> reply.body == part[p.first..p.first + p.length]
    ensures p.first + p.length > |part| ==> reply == Whole(part) && |part| == p.length && p.first > 0
  {
    if p.first + p.length <= |part| { AcceptedIsRight(reply, part, p); }
  }

  /** Whether any honest reply can be accepted at all. */
  lemma Acceptable(part: seq<byte>, p: Piece)
    ensures (exists reply :: Honest(reply, part, p) && Accepted(reply, p))
      <==> p.first + p.length <= |part| || p.length == |part|
  {
    if p.first + p.length <= |part| {
      var reply := Partial(part[p.first..p.first + p.length]);
      assert Honest(reply, part, p) && Accepted(reply, p);
    } else if p.length == |part| {
      assert Honest(Whole(part), part, p) && Accepted(Whole(part), p);
    }
  }

  datatype Progress = Pending(failures: nat) | Done | Rejected

  datatype Event = Event(piece: nat, reply: Reply)

  datatype Transfer = Transfer(out: seq<byte>, progress: seq<Progress>)

  function Advance(progress: Progress, accepted: bool): Progress {
    match progress
    case Pending(failures) =>
      if accepted then Done else if failures >= 2 then Rejected else Pending(failures + 1)
    case _ => progress
  }

  function Write(out: seq<byte>, at: nat, bytes: seq<byte>): (r: seq<byte>)
    requires at + |bytes| <= |out|
    ensures |r| == |out|
    ensures forall k :: 0 <= k < |out| ==> r[k] == if at <= k < at + |bytes| then bytes[k - at] else out[k]
  {
    out[..at] + bytes + out[at + |bytes|..]
  }

  ghost predicate Fits(pieces: seq<Piece>, t: Transfer) {
    && |t.progress| == |pieces|
    && forall i :: 0 <= i < |pieces| ==> pieces[i].dest + pieces[i].length <= |t.out|
  }

  function Complete(pieces: seq<Piece>, t: Transfer, e: Event): (r: Transfer)
    requires Fits(pieces, t) && e.piece < |pieces|
    ensures Fits(pieces, r) && |r.out| == |t.out|
  {
    var p, was := pieces[e.piece], t.progress[e.piece];
    var accepted := Accepted(e.reply, p);
    Transfer(
      if was.Pending? && accepted then Write(t.out, p.dest, e.reply.body) else t.out,
      t.progress[e.piece := Advance(was, accepted)])
  }

  predicate Events(events: seq<Event>, pieces: seq<Piece>) {
    forall k :: 0 <= k < |events| ==> events[k].piece < |pieces|
  }

  function Run(pieces: seq<Piece>, t: Transfer, events: seq<Event>): (r: Transfer)
    requires Fits(pieces, t) && Events(events, pieces)
    ensures Fits(pieces, r) && |r.out| == |t.out|
  {
    if events == [] then t
    else Complete(pieces, Run(pieces, t, events[..|events| - 1]), events[|events| - 1])
  }

  function Start(pieces: seq<Piece>, length: nat): Transfer {
    Transfer(seq(length, _ => 0), seq(|pieces|, _ => Pending(0)))
  }

  lemma StartFits(pieces: seq<Piece>, offset: nat, length: nat, partSize: nat, partCount: nat)
    requires Tiles(pieces, offset, length, partSize, partCount)
    ensures Fits(pieces, Start(pieces, length))
  {
    forall i | 0 <= i < |pieces| ensures pieces[i].dest + pieces[i].length <= length {
      EndsInside(pieces, i, offset, length, partSize, partCount);
    }
  }

  /** The replies piece i received, in order. */
  function Replies(events: seq<Event>, i: nat): (r: seq<Reply>) {
    if events == [] then []
    else
      var last := events[|events| - 1];
      Replies(events[..|events| - 1], i) + if last.piece == i then [last.reply] else []
  }

  function Outcome(replies: seq<Reply>, p: Piece): Progress {
    if replies == [] then Pending(0)
    else Advance(Outcome(replies[..|replies| - 1], p), Accepted(replies[|replies| - 1], p))
  }

  /** Reads a piece's fate off its replies: done iff one of the first three is accepted, rejected iff three all fail. */
  lemma {:induction false} OutcomeMeans(replies: seq<Reply>, p: Piece)
    ensures Outcome(replies, p).Done? <==> exists k :: 0 <= k < |replies| && k <= 2 && Accepted(replies[k], p)
    ensures Outcome(replies, p).Rejected? <==>
      |replies| >= 3 && !Accepted(replies[0], p) && !Accepted(replies[1], p) && !Accepted(replies[2], p)
    ensures Outcome(replies, p).Pending? ==> Outcome(replies, p).failures == |replies| <= 2
  {
    if replies == [] {
    } else {
      var front, n := replies[..|replies| - 1], |replies| - 1;
      OutcomeMeans(front, p);
      assert forall k :: 0 <= k < n ==> front[k] == replies[k];
      if Outcome(front, p).Pending? && Accepted(replies[n], p) { assert n <= 2; }
    }
  }

  /** A piece's progress depends on its own replies only, however they interleave with the other pieces'. */
  lemma {:induction false} ProgressIsOutcome(pieces: seq<Piece>, length: nat, events: seq<Event>, i: nat)
    requires Fits(pieces, Start(pieces, length)) && Events(events, pieces) && i < |pieces|
    ensures Run(pieces, Start(pieces, length), events).progress[i] == Outcome(Replies(events, i), pieces[i])
  {
    if events == [] {
    } else {
      var front, last := events[..|events| - 1], events[|events| - 1];
      ProgressIsOutcome(pieces, length, front, i);
      if last.piece == i {
        var r := Replies(events, i);
        assert r[..|r| - 1] == Replies(front, i);
      } else {
        assert Replies(events, i) == Replies(front, i);
      }
    }
  }

  /** The stored object answers the requests. */
  ghost predicate HonestRun(events: seq<Event>, pieces: seq<Piece>, parts: seq<seq<byte>>) {
    forall k :: 0 <= k < |events| ==>
      && events[k].piece < |pieces| && pieces[events[k].piece].part < |parts|
      && Honest(events[k].reply, parts[pieces[events[k].piece].part], pieces[events[k].piece])
  }

  /** Where a piece is done the buffer holds the file's bytes, elsewhere it is still zero. */
  ghost predicate Assembled(t: Transfer, pieces: seq<Piece>, whole: seq<byte>, offset: nat) {
    && Fits(pieces, t) && offset + |t.out| <= |whole|
    && forall i :: 0 <= i < |pieces| ==> PieceAssembled(t, pieces, i, whole, offset)
  }

  ghost predicate PieceAssembled(t: Transfer, pieces: seq<Piece>, i: nat, whole: seq<byte>, offset: nat)
    requires Fits(pieces, t) && i < |pieces| && offset + |t.out| <= |whole|
  {
    forall k :: pieces[i].dest <= k < pieces[i].dest + pieces[i].length ==>
      t.out[k] == if t.progress[i].Done? then whole[offset + k] else 0
  }

  /** An in-bounds read asks each part for bytes it has, and those are the file's bytes at the piece's place. */
  lemma PieceInPart(p: Piece, parts: seq<seq<byte>>, offset: nat, length: nat, partSize: nat)
    requires Parted(parts, partSize) && Placed(p, offset, partSize, |parts|)
    requires p.dest + p.length <= length && offset + length <= |Joined(parts)|
    ensures p.first + p.length <= |parts[p.part]|
    ensures parts[p.part][p.first..p.first + p.length] == Joined(parts)[offset + p.dest..offset + p.dest + p.length]
  {
    PartOfWhole(parts, partSize, p.part);
    var at := p.part * partSize;
    RecordCodec.SubSlice(Joined(parts), at, at + |parts[p.part]|, p.first, p.first + p.length);
  }

  lemma CompleteAssembles(
    pieces: seq<Piece>, t: Transfer, e: Event, parts: seq<seq<byte>>, offset: nat, partSize: nat)
    requires Parted(parts, partSize) && Tiles(pieces, offset, |t.out|, partSize, |parts|)
    requires Assembled(t, pieces, Joined(parts), offset)
    requires e.piece < |pieces| && pieces[e.piece].part < |parts|
    requires Honest(e.reply, parts[pieces[e.piece].part], pieces[e.piece])
    ensures Assembled(Complete(pieces, t, e), pieces, Joined(parts), offset)
  {
    hide PieceAssembled, Complete, Follows, Joined, Parted, Fits;
    var whole := Joined(parts);
    if Accepted(e.reply, pieces[e.piece]) {
      AcceptedBytes(pieces, e, parts, offset, |t.out|, partSize);
    }
    CompleteFits(pieces, t, e);
    forall i | 0 <= i < |pieces| ensures PieceAssembled(Complete(pieces, t, e), pieces, i, whole, offset) {
      assert PieceAssembled(t, pieces, i, whole, offset);
      if i < e.piece { EarlierEndsFirst(pieces, i, e.piece, offset, |t.out|, partSize, |parts|); }
      if e.piece < i { EarlierEndsFirst(pieces, e.piece, i, offset, |t.out|, partSize, |parts|); }
      CompletePiece(pieces, t, e, i, whole, offset);
    }
  }

  lemma CompleteFits(pieces: seq<Piece>, t: Transfer, e: Event)
    requires Fits(pieces, t) && e.piece < |pieces|
    ensures Fits(pieces, Complete(pieces, t, e)) && |Complete(pieces, t, e).out| == |t.out|
  {}

  /** An accepted honest reply carries the file's bytes for its piece. */
  lemma AcceptedBytes(
    pieces: seq<Piece>, e: Event, parts: seq<seq<byte>>, offset: nat, length: nat, partSize: nat)
    requires Parted(parts, partSize) && Tiles(pieces, offset, length, partSize, |parts|)
    requires offset + length <= |Joined(parts)|
    requires e.piece < |pieces| && pieces[e.piece].part < |parts|
    requires Honest(e.reply, parts[pieces[e.piece].part], pieces[e.piece]) && Accepted(e.reply, pieces[e.piece])
    ensures pieces[e.piece].dest + pieces[e.piece].length <= length
    ensures e.reply.body ==
      Joined(parts)[offset + pieces[e.piece].dest..offset + pieces[e.piece].dest + pieces[e.piece].length]
  {
    var p := pieces[e.piece];
    assert Placed(p, offset, partSize, |parts|);
    EndsInside(pieces, e.piece, offset, length, partSize, |parts|);
    PieceInPart(p, parts, offset, length, partSize);
    AcceptedIsRight(e.reply, parts[p.part], p);
  }

  lemma CompletePiece(pieces: seq<Piece>, t: Transfer, e: Event, i: nat, whole: seq<byte>, offset: nat)
    requires Fits(pieces, t) && offset + |t.out| <= |whole| && i < |pieces| && e.piece < |pieces|
    requires PieceAssembled(t, pieces, i, whole, offset)
    requires i != e.piece ==>
      || pieces[i].dest + pieces[i].length <= pieces[e.piece].dest
      || pieces[e.piece].dest + pieces[e.piece].length <= pieces[i].dest
    requires t.progress[e.piece].Pending? && Accepted(e.reply, pieces[e.piece]) ==>
      e.reply.body == whole[offset + pieces[e.piece].dest..offset + pieces[e.piece].dest + pieces[e.piece].length]
    ensures PieceAssembled(Complete(pieces, t, e), pieces, i, whole, offset)
  {}

  /** Every run, in every order and with every pattern of failures, keeps the buffer a partial copy of the file. */
  lemma {:induction false} RunAssembles(
    pieces: seq<Piece>, events: seq<Event>, parts: seq<seq<byte>>, offset: nat, length: nat, partSize: nat)
    requires Parted(parts, partSize) && Tiles(pieces, offset, length, partSize, |parts|)
    requires offset + length <= |Joined(parts)| && HonestRun(events, pieces, parts)
    ensures Fits(pieces, Start(pieces, length))
    ensures Assembled(Run(pieces, Start(pieces, length), events), pieces, Joined(parts), offset)
  {
    StartFits(pieces, offset, length, partSize, |parts|);
    if events != [] {
      var front := events[..|events| - 1];
      RunAssembles(pieces, front, parts, offset, length, partSize);
      CompleteAssembles(pieces, Run(pieces, Start(pieces, length), front), events[|events| - 1], parts, offset, partSize);
    }
  }

  /** With an acceptable reply to each piece after at most two failures, the read returns the slice of the joined parts. */
  lemma ReadReturnsSlice(
    pieces: seq<Piece>, events: seq<Event>, parts: seq<seq<byte>>, offset: nat, length: nat, partSize: nat)
    requires Parted(parts, partSize) && Tiles(pieces, offset, length, partSize, |parts|)
    requires offset + length <= |Joined(parts)| && HonestRun(events, pieces, parts)
    requires forall i :: 0 <= i < |pieces| ==>
      exists k :: 0 <= k < |Replies(events, i)| && k <= 2 && Accepted(Replies(events, i)[k], pieces[i])
    ensures Fits(pieces, Start(pieces, length))
    ensures Run(pieces, Start(pieces, length), events).out == Joined(parts)[offset..offset + length]
  {
    RunAssembles(pieces, events, parts, offset, length, partSize);
    var t := Run(pieces, Start(pieces, length), events);
    forall k | 0 <= k < length ensures t.out[k] == Joined(parts)[offset + k] {
      assert Follows(pieces, |pieces| - 1, length);
      var i := CoveredUpTo(pieces, |pieces| - 1, k, offset, length, partSize, |parts|);
      ProgressIsOutcome(pieces, length, events, i);
      OutcomeMeans(Replies(events, i), pieces[i]);
      assert PieceAssembled(t, pieces, i, Joined(parts), offset);
    }
  }

  lemma {:induction false} ReplyCameFrom(events: seq<Event>, i: nat, r: nat) returns (k: nat)
    requires r < |Replies(events, i)|
    ensures k < |events| && events[k] == Event(i, Replies(events, i)[r])
  {
    var n := |events| - 1;
    if r < |Replies(events[..n], i)| { k := ReplyCameFrom(events[..n], i, r); } else { k := n; }
  }

  /** The piece that holds the last position of a range past the end asks its part for bytes it has not. */
  lemma LastPiecePastEnd(
    pieces: seq<Piece>, parts: seq<seq<byte>>, offset: nat, length: nat, partSize: nat) returns (i: nat)
    requires Parted(parts, partSize) && Tiles(pieces, offset, length, partSize, |parts|) && length > 0
    requires offset + length > |Joined(parts)|
    ensures i < |pieces| && pieces[i].part < |parts| && pieces[i].first + pieces[i].length > |parts[pieces[i].part]|
  {
    assert Follows(pieces, |pieces| - 1, length);
    i := CoveredUpTo(pieces, |pieces| - 1, length - 1, offset, length, partSize, |parts|);
    EndsInside(pieces, i, offset, length, partSize, |parts|);
    assert Placed(pieces[i], offset, partSize, |parts|);
    PartOfWhole(parts, partSize, pieces[i].part);
  }

  /** A read past the end resolves only if a server answered with a whole part of just the length asked for. */
  lemma ResolvedPastEnd(
    pieces: seq<Piece>, events: seq<Event>, parts: seq<seq<byte>>, offset: nat, length: nat, partSize: nat)
    returns (k: nat)
    requires Parted(parts, partSize) && Tiles(pieces, offset, length, partSize, |parts|) && length > 0
    requires offset + length > |Joined(parts)| && HonestRun(events, pieces, parts)
    requires Fits(pieces, Start(pieces, length))
    requires forall i :: 0 <= i < |pieces| ==> Run(pieces, Start(pieces, length), events).progress[i].Done?
    ensures k < |events|
    ensures
      var p := pieces[events[k].piece];
      && events[k].reply == Whole(parts[p.part]) && |parts[p.part]| == p.length && p.first > 0
      && p.part * partSize + p.first == offset + p.dest
  {
    var i := LastPiecePastEnd(pieces, parts, offset, length, partSize);
    ProgressIsOutcome(pieces, length, events, i);
    OutcomeMeans(Replies(events, i), pieces[i]);
    var r: nat :| r < |Replies(events, i)| && Accepted(Replies(events, i)[r], pieces[i]);
    k := ReplyCameFrom(events, i, r);
    WrongOnlyPastTheEnd(events[k].reply, parts[pieces[i].part], pieces[i]);
    assert Placed(pieces[i], offset, partSize, |parts|);
  }

  /** Asking a three-byte object in four-byte parts for three bytes from position one resolves with its bytes from zero. */
  lemma PastEndExample()
    ensures
      var pieces, events := [Piece(0, 1, 3, 0)], [Event(0, Whole([7, 8, 9]))];
      && Tiles(pieces, 1, 3, 4, 1) && Parted([[7, 8, 9]], 4) && HonestRun(events, pieces, [[7, 8, 9]])
      && Joined([[7, 8, 9]])[1..] == [8, 9]
      && Fits(pieces, Start(pieces, 3))
      && Run(pieces, Start(pieces, 3), events) == Transfer([7, 8, 9], [Done])
  {
    var pieces, events := [Piece(0, 1, 3, 0)], [Event(0, Whole([7, 8, 9]))];
    assert Placed(pieces[0], 1, 4, 1) && Follows(pieces, 0, 3);
    var start := Start(pieces, 3);
    assert Joined([]) == [] && [[7, 8, 9]][..0] == [];
    assert events[..0] == [] && Run(pieces, start, []) == start;
    assert Complete(pieces, start, events[0]).out == [7, 8, 9];
    assert Complete(pieces, start, events[0]).progress == [Done];
  }

  /** Two runs that give each piece the same replies end in the same state, whatever the completion order. */
  lemma OrderIrrelevant(
    pieces: seq<Piece>, a: seq<Event>, b: seq<Event>, parts: seq<seq<byte>>, offset: nat, length: nat, partSize: nat)
    requires Parted(parts, partSize) && Tiles(pieces, offset, length, partSize, |parts|)
    requires offset + length <= |Joined(parts)| && HonestRun(a, pieces, parts) && HonestRun(b, pieces, parts)
    requires forall i :: 0 <= i < |pieces| ==> Replies(a, i) == Replies(b, i)
    ensures Fits(pieces, Start(pieces, length))
    ensures Run(pieces, Start(pieces, length), a) == Run(pieces, Start(pieces, length), b)
  {
    RunAssembles(pieces, a, parts, offset, length, partSize);
    RunAssembles(pieces, b, parts, offset, length, partSize);
    var t, u := Run(pieces, Start(pieces, length), a), Run(pieces, Start(pieces, length), b);
    hide Assembled, Tiles;
    forall i | 0 <= i < |pieces| ensures t.progress[i] == u.progress[i] {
      ProgressIsOutcome(pieces, length, a, i);
      ProgressIsOutcome(pieces, length, b, i);
    }
    hide Run, Replies;
    SameBuffer(pieces, t, u, Joined(parts), offset, partSize, |parts|);
  }

  lemma SameBuffer(
    pieces: seq<Piece>, t: Transfer, u: Transfer, whole: seq<byte>, offset: nat, partSize: nat, partCount: nat)
    requires Tiles(pieces, offset, |t.out|, partSize, partCount) && |t.out| == |u.out| && t.progress == u.progress
    requires Assembled(t, pieces, whole, offset) && Assembled(u, pieces, whole, offset)
    ensures t == u
  {
    hide Placed;
    forall k | 0 <= k < |t.out| ensures t.out[k] == u.out[k] {
      assert Follows(pieces, |pieces| - 1, |t.out|);
      var i := CoveredUpTo(pieces, |pieces| - 1, k, offset, |t.out|, partSize, partCount);
      assert PieceAssembled(t, pieces, i, whole, offset) && PieceAssembled(u, pieces, i, whole, offset);
    }
  }

  /** The buffer and the per-piece retry counters that the piece fetches share. */
  class PartRead {
    const pieces: seq<Piece>
    const out: array<byte>
    const progress: array<Progress>

    ghost predicate Valid() reads this, out, progress { Fits(pieces, State()) }

    ghost function State(): Transfer reads this, out, progress { Transfer(out[..], progress[..]) }

    constructor (pieces: seq<Piece>, length: nat, ghost offset: nat, ghost partSize: nat, ghost partCount: nat)
      requires Tiles(pieces, offset, length, partSize, partCount)
      ensures Valid() && this.pieces == pieces && fresh(out) && fresh(progress)
      ensures State() == Start(pieces, length)
    {
      this.pieces := pieces;
      out := new byte[length](_ => 0);
      progress := new Progress[|pieces|](_ => Pending(0));
      new;
      assert State() == Start(pieces, length);
      StartFits(pieces, offset, length, partSize, partCount);
    }

    /** One fetch of piece e.piece ends. */
    method Completed(e: Event)
      requires Valid() && e.piece < |pieces| && progress[e.piece].Pending?
      modifies out, progress
      ensures Valid() && State() == Complete(pieces, old(State()), e)
    {
      var p, was := pieces[e.piece], progress[e.piece];
      if Accepted(e.reply, p) {
        for k := 0 to p.length
          invariant progress[..] == old(progress[..])
          invariant forall q :: 0 <= q < out.Length ==>
            out[q] == if p.dest <= q < p.dest + k then e.reply.body[q - p.dest] else old(out[q])
        {
          out[p.dest + k] := e.reply.body[k];
        }
        assert out[..] == Write(old(out[..]), p.dest, e.reply.body);
      }
      progress[e.piece] := Advance(was, Accepted(e.reply, p));
      assert progress[..] == old(progress[..])[e.piece := progress[e.piece]];
    }

    /** Promise.all: rejected once some piece is, resolved once every piece is done. */
    method Settled() returns (resolved: bool, rejected: bool)
      requires Valid()
      ensures rejected <==> Progress.Rejected in progress[..]
      ensures resolved <==> forall i :: 0 <= i < |pieces| ==> progress[i].Done?
    {
      resolved, rejected := true, false;
      for i := 0 to progress.Length
        invariant rejected <==> Progress.Rejected in progress[..i]
        invariant resolved <==> forall j :: 0 <= j < i ==> progress[j].Done?
      {
        assert progress[..i + 1] == progress[..i] + [progress[i]];
        if progress[i].Rejected? { rejected := true; }
        if !progress[i].Done? { resolved := false; }
      }
      assert progress[..progress.Length] == progress[..];
    }
  }
}
