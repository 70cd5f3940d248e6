/** Reading and writing CPP memory through the character device:
    nfp_dev_cpp_op() and the file-position encoding around it. */
module ChunkedAccess {
  import opened Words

  /** No CPP area set up for an access reaches over a multiple of this. */
  const MEMIO_BOUNDARY: nat := 0x10_0000
  /** Bytes moved through the bounce buffer at a time. */
  const TMPBUF: nat := 64

  datatype Error = Ok | EIO | EFAULT | EAGAIN | EDEVICE

  /** What an access asks of the kernel: to set up a CPP area, to acquire it
      without waiting, to evict all mappings and wait for a window, and to move
      a piece through the bounce buffer. */
  datatype Service = Alloc | TryAcquire | EvictAndWait | Move

  /** `len` bytes at device address `addr`, at offset `user` in the buffer. */
  datatype Piece = Piece(addr: nat, user: nat, len: nat)

  function Total(s: seq<Piece>): nat {
    if s == [] then 0 else Total(s[..|s| - 1]) + s[|s| - 1].len
  }

  /** Pieces follow one another without gap, on the device from `start` and in
      the user's buffer from 0. */
  ghost predicate Tiles(s: seq<Piece>, start: nat) {
    forall k :: 0 <= k < |s| ==> s[k].addr == start + Total(s[..k]) && s[k].user == Total(s[..k]) && s[k].len > 0
  }

  predicate Inside(p: Piece, x: nat) { p.addr <= x < p.addr + p.len }

  predicate WithinBlock(p: Piece) {
    p.len > 0 && p.addr / MEMIO_BOUNDARY == (p.addr + p.len - 1) / MEMIO_BOUNDARY
  }

  lemma TotalSnoc(s: seq<Piece>, p: Piece)
    ensures Total(s + [p]) == Total(s) + p.len
  {
    assert (s + [p])[..|s|] == s;
  }

  lemma TilesSnoc(s: seq<Piece>, start: nat, p: Piece)
    requires Tiles(s, start) && p == Piece(start + Total(s), Total(s), p.len) && p.len > 0
    ensures Tiles(s + [p], start) && Total(s + [p]) == Total(s) + p.len
  {
    TotalSnoc(s, p);
    var t := s + [p];
    forall k | 0 <= k < |t| ensures t[k].addr == start + Total(t[..k]) && t[k].user == Total(t[..k]) {
      assert t[..k] == s[..k];
      assert s[..|s|] == s;
    }
  }

  lemma {:induction false} TotalMonotone(s: seq<Piece>, i: nat, j: nat)
    requires i <= j <= |s|
    ensures Total(s[..i]) <= Total(s[..j])
  {
    if i < j {
      TotalMonotone(s, i, j - 1);
      assert s[..j][..j - 1] == s[..j - 1];
    }
  }

  lemma PieceSpan(s: seq<Piece>, start: nat, k: nat)
    requires Tiles(s, start) && k < |s|
    ensures s[k].addr == start + Total(s[..k]) && s[k].addr + s[k].len == start + Total(s[..k + 1])
  {
    assert s[..k + 1] == s[..k] + [s[k]];
    TotalSnoc(s[..k], s[k]);
  }

  lemma PiecesApart(s: seq<Piece>, start: nat, i: nat, j: nat)
    requires Tiles(s, start) && i < j < |s|
    ensures s[i].addr + s[i].len <= s[j].addr
  {
    PieceSpan(s, start, i);
    PieceSpan(s, start, j);
    TotalMonotone(s, i + 1, j);
  }

  lemma {:induction false} PieceOf(s: seq<Piece>, start: nat, x: nat) returns (k: nat)
    requires Tiles(s, start) && start <= x < start + Total(s)
    ensures k < |s| && Inside(s[k], x)
  {
    var init := s[..|s| - 1];
    assert s[..|s|] == s;
    PieceSpan(s, start, |s| - 1);
    if x < start + Total(init) {
      forall k | 0 <= k < |init| ensures init[..k] == s[..k] {
      }
      k := PieceOf(init, start, x);
    } else {
      k := |s| - 1;
    }
  }

  /** Tiling pieces touch each byte of their range once, no other byte, and
      the byte's place in the buffer is its distance from the start. */
  lemma EachByteOnce(s: seq<Piece>, start: nat, x: nat)
    requires Tiles(s, start)
    ensures (exists k :: 0 <= k < |s| && Inside(s[k], x)) <==> start <= x < start + Total(s)
    ensures forall i, j :: 0 <= i < j < |s| ==> !(Inside(s[i], x) && Inside(s[j], x))
    ensures forall k :: 0 <= k < |s| && Inside(s[k], x) ==> s[k].user + (x - s[k].addr) == x - start
  {
    forall i, j | 0 <= i < j < |s| ensures !(Inside(s[i], x) && Inside(s[j], x)) {
      PiecesApart(s, start, i, j);
    }
    forall k | 0 <= k < |s| && Inside(s[k], x) ensures start <= x < start + Total(s) {
      PieceSpan(s, start, k);
      TotalMonotone(s, k + 1, |s|);
      assert s[..|s|] == s;
    }
    if start <= x < start + Total(s) {
      var k := PieceOf(s, start, x);
    }
  }

  /** A pass stays within one block if it ends before the next one. */
  lemma BlockOf(addr: nat, len: nat)
    requires len > 0 && addr % MEMIO_BOUNDARY + len <= MEMIO_BOUNDARY
    ensures WithinBlock(Piece(addr, 0, len))
  {
    var q, r := addr / MEMIO_BOUNDARY, addr % MEMIO_BOUNDARY;
    DivisionIsUnique(addr + len - 1, MEMIO_BOUNDARY, q, r + len - 1);
  }

  lemma BoundaryMask(x: nat)
    ensures BitAnd(x, MEMIO_BOUNDARY - 1) == x % MEMIO_BOUNDARY
  {
    Pow2Table();
    MaskIsMod(x, 20);
  }

  /** Length of the first pass: to the end of the range, or to the boundary
      if first and last byte lie in different blocks. */
  function FirstPass(off: nat, count: nat): nat {
    var last := (off + count - 1) % 0x1_0000_0000_0000_0000;
    if last - BitAnd(last, MEMIO_BOUNDARY - 1) != off - BitAnd(off, MEMIO_BOUNDARY - 1)
    then MEMIO_BOUNDARY - BitAnd(off, MEMIO_BOUNDARY - 1)
    else count
  }

  lemma FirstPassFits(off: nat, count: nat)
    requires 0 < count && off + count < 0x8000_0000_0000_0000
    ensures 0 < FirstPass(off, count) <= count
    ensures off % MEMIO_BOUNDARY + FirstPass(off, count) <= MEMIO_BOUNDARY
    ensures FirstPass(off, count) < count ==> (off + FirstPass(off, count)) % MEMIO_BOUNDARY == 0
    ensures PassOk(off, FirstPass(off, count), count)
  {
    var last := off + count - 1;
    Small(last, 0x1_0000_0000_0000_0000);
    BoundaryMask(last);
    BoundaryMask(off);
    var r := off % MEMIO_BOUNDARY;
    if last / MEMIO_BOUNDARY == off / MEMIO_BOUNDARY {
    } else {
      DivisionIsUnique(off + MEMIO_BOUNDARY - r, MEMIO_BOUNDARY, off / MEMIO_BOUNDARY + 1, 0);
    }
  }

  /** A pass of `len` bytes at `addr` stays in its block, and if it is not the
      last one it ends on a boundary. */
  predicate PassOk(addr: nat, len: nat, left: nat) {
    && 0 < len <= left && addr % MEMIO_BOUNDARY + len <= MEMIO_BOUNDARY
    && (len < left ==> (addr + len) % MEMIO_BOUNDARY == 0)
  }

  lemma NextPass(addr: nat, len: nat, left: nat)
    requires PassOk(addr, len, left) && len < left
    ensures PassOk(addr + len, if left - len > MEMIO_BOUNDARY then MEMIO_BOUNDARY else left - len, left - len)
  {
    AddOne(addr + len, MEMIO_BOUNDARY);
  }

  /** The service's answer ends the access; that no window was free at once
      does not. */
  predicate Fails(asked: Service, answer: Error) {
    answer != Ok && !(asked.TryAcquire? && answer == EAGAIN)
  }

  /** What may be asked for after a service that did not fail. */
  predicate Follows(before: Service, answer: Error, next: Service) {
    match before
    case Alloc => next.TryAcquire?
    case TryAcquire => if answer == EAGAIN then next.EvictAndWait? else next.Move?
    case EvictAndWait => next.Move?
    case Move => next.Move? || next.Alloc?
  }

  /** The services asked for so far, of which number k was answered by fate(k):
      one after the other as the access goes, and none but the last failed. */
  ghost predicate Orderly(log: seq<Service>, fate: nat -> Error) {
    && (log != [] ==> log[0].Alloc?)
    && (forall k :: 0 <= k < |log| - 1 ==> !Fails(log[k], fate(k)) && Follows(log[k], fate(k), log[k + 1]))
  }

  ghost predicate Clean(log: seq<Service>, fate: nat -> Error) {
    Orderly(log, fate) && (log != [] ==> !Fails(log[|log| - 1], fate(|log| - 1)))
  }

  /** How many services of the given kinds have been granted. */
  function Granted(log: seq<Service>, fate: nat -> Error, kinds: set<Service>): nat {
    if log == [] then 0
    else Granted(log[..|log| - 1], fate, kinds) + One(log[|log| - 1], fate(|log| - 1), kinds)
  }

  function One(asked: Service, answer: Error, kinds: set<Service>): nat {
    if asked in kinds && answer == Ok then 1 else 0
  }

  /** A pass for every window acquired, a piece for every move. */
  ghost predicate Matches(log: seq<Service>, fate: nat -> Error, passes: seq<Piece>, pieces: seq<Piece>) {
    |passes| == Granted(log, fate, {TryAcquire, EvictAndWait}) && |pieces| == Granted(log, fate, {Move})
  }

  lemma AskNext(log: seq<Service>, fate: nat -> Error, next: Service)
    requires Clean(log, fate)
    requires if log == [] then next.Alloc? else Follows(log[|log| - 1], fate(|log| - 1), next)
    ensures Orderly(log + [next], fate)
    ensures Clean(log + [next], fate) <==> !Fails(next, fate(|log|))
    ensures forall k :: Granted(log + [next], fate, k) == Granted(log, fate, k) + One(next, fate(|log|), k)
  {
    hide Fails, Follows, Granted, One;
    forall k { GrantedSnoc(log, fate, next, k); }
  }

  lemma GrantedSnoc(log: seq<Service>, fate: nat -> Error, next: Service, kinds: set<Service>)
    ensures Granted(log + [next], fate, kinds) == Granted(log, fate, kinds) + One(next, fate(|log|), kinds)
  {
    assert (log + [next])[..|log|] == log;
  }

  /** Ends on a boundary, or where the access ends. */
  predicate EndsRight(p: Piece, end: nat) {
    (p.addr + p.len) % MEMIO_BOUNDARY == 0 || p.addr + p.len == end
  }

  /** Passes stay in their block and are as long as they can be. */
  ghost predicate PassesOk(passes: seq<Piece>, end: nat) {
    forall k :: 0 <= k < |passes| ==> WithinBlock(passes[k]) && EndsRight(passes[k], end)
  }

  /** Pieces stay in their block, fit the bounce buffer, and fill it unless
      they end their pass. */
  ghost predicate PiecesOk(pieces: seq<Piece>, end: nat) {
    forall k :: 0 <= k < |pieces| ==>
      && pieces[k].len <= TMPBUF && WithinBlock(pieces[k])
      && (pieces[k].len < TMPBUF ==> EndsRight(pieces[k], end))
  }

  /** nfp_dev_cpp_op(). Returns the error or success with the number of bytes,
      the advanced offset, which passes were set up and which pieces were
      moved, how many CPP areas exist afterwards, and which services were asked
      for; `fate` says how each of them in turn will end. */
  method Op(off: nat, count: nat, fate: nat -> Error)
    returns (err: Error, ret: nat, off': nat, passes: seq<Piece>, pieces: seq<Piece>, areasLeft: nat, log: seq<Service>)
    requires off + count < 0x8000_0000_0000_0000
    ensures Tiles(pieces, off) && PiecesOk(pieces, off + count) && off' == off + Total(pieces)
    ensures Tiles(passes, off) && PassesOk(passes, off + count) && Total(pieces) <= Total(passes) <= count
    ensures Orderly(log, fate) && Matches(log, fate, passes, pieces)
    ensures err == Ok <==> Clean(log, fate)
    ensures err == Ok ==> ret == count && off' == off + count && Total(passes) == count
    ensures err != Ok ==> off' < off + count && err == if log[|log| - 1].Alloc? then EIO else fate(|log| - 1)
    ensures areasLeft == 0
  {
    hide Tiles, Total, FirstPass, PassOk, WithinBlock, PassesOk, PiecesOk, Orderly, Clean, Matches, BetweenPasses;
    NothingYet(off, off + count, fate);
    passes, pieces, off', areasLeft, ret, log := [], [], off, 0, 0, [];
    var left: nat, totlen: nat := count, 0;
    var curlen: nat := FirstPass(off, count);
    if count > 0 {
      FirstPassFits(off, count);
    }
    while left > 0
      invariant Tiles(passes, off) && Tiles(pieces, off)
      invariant Total(pieces) == Total(passes) == totlen && off' == off + totlen && totlen + left == count
      invariant left > 0 ==> PassOk(off', curlen, left)
      invariant PassesOk(passes, off + count) && PiecesOk(pieces, off + count)
      invariant areasLeft == 0 && Clean(log, fate) && Matches(log, fate, passes, pieces) && BetweenPasses(log)
    {
      var pos: nat;
      err, pos, passes, pieces, areasLeft, log :=
        OnePass(off, off', curlen, off + count, passes, pieces, areasLeft, fate, log);
      off' := off' + pos;
      totlen := totlen + pos;
      if err != Ok {
        CleanIsOrderly(log, fate);
        return;
      }
      if pos < left {
        NextPass(off' - pos, curlen, left);
      }
      left := left - pos;
      curlen := if left > MEMIO_BOUNDARY then MEMIO_BOUNDARY else left;
    }
    CleanIsOrderly(log, fate);
    err, ret := Ok, totlen;
  }

  lemma CleanIsOrderly(log: seq<Service>, fate: nat -> Error)
    ensures Clean(log, fate) ==> Orderly(log, fate)
  {
  }

  lemma NothingYet(start: nat, end: nat, fate: nat -> Error)
    ensures Tiles([], start) && Total([]) == 0 && PassesOk([], end) && PiecesOk([], end)
    ensures Clean([], fate) && Matches([], fate, [], []) && BetweenPasses([])
  {
  }

  predicate BetweenPasses(log: seq<Service>) { log == [] || log[|log| - 1].Move? }

  /** Set up an area for one pass, transfer it, take the area down again. */
  method OnePass(start: nat, addr: nat, curlen: nat, ghost end: nat, passes: seq<Piece>, pieces: seq<Piece>,
                 areas: nat, fate: nat -> Error, log: seq<Service>)
    returns (err: Error, pos: nat, passes': seq<Piece>, pieces': seq<Piece>, areasLeft: nat, log': seq<Service>)
    requires Clean(log, fate) && Matches(log, fate, passes, pieces) && BetweenPasses(log)
    requires addr <= end && PassOk(addr, curlen, end - addr) && Tiles(passes, start) && Tiles(pieces, start)
    requires Total(passes) == Total(pieces) && addr == start + Total(pieces)
    requires PassesOk(passes, end) && PiecesOk(pieces, end)
    ensures Orderly(log', fate) && Matches(log', fate, passes', pieces')
    ensures err == Ok <==> Clean(log', fate)
    ensures err == Ok ==> BetweenPasses(log')
    ensures err != Ok ==> log' != [] && err == if log'[|log'| - 1].Alloc? then EIO else fate(|log'| - 1)
    ensures Tiles(passes', start) && Tiles(pieces', start)
    ensures Total(pieces') == Total(pieces) + pos
    ensures Total(passes') == Total(passes) + curlen || (passes' == passes && err != Ok && pos == 0)
    ensures PassesOk(passes', end) && PiecesOk(pieces', end)
    ensures (if err == Ok then pos == curlen else pos < curlen) && 0 < curlen <= end - addr
    ensures areasLeft == areas
  {
    hide Tiles, Total, WithinBlock, EndsRight, Orderly, Clean, Granted;
    AskNext(log, fate, Alloc);
    areasLeft, log', passes', pieces', pos := areas, log + [Alloc], passes, pieces, 0;
    if fate(|log|) != Ok {
      err := EIO;
      return;
    }
    areasLeft := areasLeft + 1;
    AskNext(log', fate, TryAcquire);
    err, log' := fate(|log'|), log' + [TryAcquire];
    if err == EAGAIN {
      AskNext(log', fate, EvictAndWait);
      err, log' := fate(|log'|), log' + [EvictAndWait];
    }
    if err != Ok {
      areasLeft := areasLeft - 1;
      return;
    }
    var pass := Piece(addr, addr - start, curlen);
    BlockOf(addr, curlen);
    PassEndsRight(addr, curlen, end, pass);
    TilesSnoc(passes, start, pass);
    passes' := passes + [pass];
    err, pos, pieces', log' := Transfer(start, pass, passes', pieces, end, fate, log');
    areasLeft := areasLeft - 1;
  }

  lemma PassEndsRight(addr: nat, curlen: nat, end: nat, pass: Piece)
    requires addr <= end && PassOk(addr, curlen, end - addr) && pass.addr == addr && pass.len == curlen
    ensures EndsRight(pass, end) && WithinBlock(pass)
  {
    BlockOf(addr, curlen);
  }

  /** The inner loop: one pass in pieces of at most the bounce buffer. */
  method Transfer(start: nat, pass: Piece, ghost passes: seq<Piece>, done: seq<Piece>, ghost end: nat,
                  fate: nat -> Error, asked: seq<Service>)
    returns (err: Error, pos: nat, pieces: seq<Piece>, log: seq<Service>)
    requires Clean(asked, fate) && Matches(asked, fate, passes, done)
    requires asked != [] && Follows(asked[|asked| - 1], fate(|asked| - 1), Move)
    requires Tiles(done, start) && pass == Piece(start + Total(done), Total(done), pass.len)
    requires pass.len > 0 && pass.addr % MEMIO_BOUNDARY + pass.len <= MEMIO_BOUNDARY
    requires EndsRight(pass, end) && PiecesOk(done, end)
    ensures Orderly(log, fate) && Matches(log, fate, passes, pieces) && |asked| < |log| && log[|log| - 1].Move?
    ensures err == Ok <==> Clean(log, fate)
    ensures err != Ok ==> err == fate(|log| - 1)
    ensures Tiles(pieces, start) && Total(pieces) == Total(done) + pos && PiecesOk(pieces, end)
    ensures if err == Ok then pos == pass.len else pos < pass.len
  {
    hide Tiles, Total, WithinBlock, EndsRight, Orderly, Clean, Granted;
    CleanIsOrderly(asked, fate);
    pieces, pos, err, log := done, 0, Ok, asked;
    while pos < pass.len
      invariant pos <= pass.len && err == Ok && Clean(log, fate) && Matches(log, fate, passes, pieces)
      invariant |asked| <= |log| && Follows(log[|log| - 1], fate(|log| - 1), Move)
      invariant pos > 0 ==> |asked| < |log| && log[|log| - 1].Move?
      invariant Tiles(pieces, start) && Total(pieces) == Total(done) + pos && PiecesOk(pieces, end)
    {
      var len: nat := pass.len - pos;
      if len > TMPBUF {
        len := TMPBUF;
      }
      AskNext(log, fate, Move);
      err, log := fate(|log|), log + [Move];
      if err != Ok {
        return;
      }
      var piece := Piece(pass.addr + pos, pass.user + pos, len);
      PieceOk(pass.addr, pos, pass.user + pos, len);
      PieceEndsRight(pass, piece, end);
      TilesSnoc(pieces, start, piece);
      pieces := pieces + [piece];
      pos := pos + len;
    }
    CleanIsOrderly(log, fate);
  }

  lemma PieceEndsRight(pass: Piece, piece: Piece, end: nat)
    requires EndsRight(pass, end)
    ensures piece.addr + piece.len == pass.addr + pass.len ==> EndsRight(piece, end)
  {
  }

  lemma PieceOk(addr: nat, pos: nat, user: nat, len: nat)
    requires len > 0 && addr % MEMIO_BOUNDARY + pos + len <= MEMIO_BOUNDARY
    ensures WithinBlock(Piece(addr + pos, user, len))
  {
    Residue(addr, pos);
    BlockOf(addr + pos, len);
  }

  lemma Residue(addr: nat, pos: nat)
    requires addr % MEMIO_BOUNDARY + pos < MEMIO_BOUNDARY
    ensures (addr + pos) % MEMIO_BOUNDARY == addr % MEMIO_BOUNDARY + pos
  {
    DivisionIsUnique(addr + pos, MEMIO_BOUNDARY, addr / MEMIO_BOUNDARY, addr % MEMIO_BOUNDARY + pos);
  }

  // --- The file position -------------------------------------------------------------

  const ADDR_SPACE: nat := 0x100_0000_0000

  /** Bitwise disjunction, one binary digit at a time. */
  function BitOr(a: nat, b: nat): (r: nat)
    ensures r >= a && r >= b
  {
    if a == 0 then b else if b == 0 then a
    else (if a % 2 == 1 || b % 2 == 1 then 1 else 0) + 2 * BitOr(a / 2, b / 2)
  }

  function Encode(cppId: nat, offset: nat): nat { BitOr((cppId / 256) * ADDR_SPACE, offset) }

  /** The CPP id and the offset that nfp_dev_cpp_read() finds in a position. */
  function Decode(pos: nat): (nat, nat) { ((pos / ADDR_SPACE) * 256, pos % ADDR_SPACE) }

  lemma {:induction false} OrDisjoint(h: nat, k: nat, l: nat)
    requires l < Pow2(k)
    ensures BitOr(h * Pow2(k), l) == h * Pow2(k) + l
  {
    if k > 0 && h > 0 && l > 0 {
      var p := Pow2(k - 1);
      assert h * Pow2(k) == 2 * (h * p);
      MulAtLeast(h, p);
      OrDisjoint(h, k - 1, l / 2);
      assert (h * Pow2(k)) / 2 == h * p && (h * Pow2(k)) % 2 == 0;
    } else if k == 0 {
      assert l == 0;
    }
  }

  /** After a transfer the position stands for the same target and the
      advanced offset exactly when the offset has not run off the end of the
      40-bit address space. */
  lemma PositionRoundTrip(pos: nat, offset': nat)
    ensures var (cppId, offset) := Decode(pos);
      Decode(Encode(cppId, offset')) == (cppId, offset') <==> offset' < ADDR_SPACE
  {
    var cppId := Decode(pos).0;
    var h := pos / ADDR_SPACE;
    assert cppId / 256 == h;
    if offset' < ADDR_SPACE {
      assert Pow2(40) == ADDR_SPACE by {
        Pow2Add(20, 20);
        Pow2Table();
      }
      OrDisjoint(h, 40, offset');
      DivisionIsUnique(h * ADDR_SPACE + offset', ADDR_SPACE, h, offset');
    }
  }
}
