/** upload_firmware_from_memory: an image goes out in pages, every page as a command and bulk pieces. */
module Firmware {
  import opened Bytes
  import opened Sequences
  import opened Words

  const PAGE: nat := 0x4000
  const PIECE: nat := 512
  const HEADER: nat := 24

  /** A bulk transfer to the device: a command, or a piece of the current page. */
  datatype Transfer = Command(tag: nat, bytes: nat, cmd: nat, addr: nat) | Data(payload: seq<byte>)

  /** The header's fields. */
  function BaseAddr(image: seq<byte>): nat requires |image| >= HEADER { Little32(image, 12) }
  function Size(image: seq<byte>): nat requires |image| >= HEADER { Little32(image, 16) }
  function EntryAddr(image: seq<byte>): nat requires |image| >= HEADER { Little32(image, 20) }

  /** The bytes to send: the declared size, header included, or all there is. */
  function Body(image: seq<byte>): seq<byte>
    requires |image| >= HEADER
  {
    if Size(image) <= |image| then image[..Size(image)] else image
  }

  function Pieces(page: seq<byte>): seq<Transfer>
  {
    if page == [] then []
    else if |page| <= PIECE then [Data(page)]
    else [Data(page[..PIECE])] + Pieces(page[PIECE..])
  }

  function Front(body: seq<byte>): seq<byte> { if |body| <= PAGE then body else body[..PAGE] }

  /** A command and the pieces of its page. */
  function PageScript(page: seq<byte>, addr: nat, tag: nat): seq<Transfer>
  {
    [Command(tag % TWO32, |page|, 3, addr % TWO32)] + Pieces(page)
  }

  /** All transfers of a body, to consecutive addresses. */
  function Script(body: seq<byte>, addr: nat, tag: nat): seq<Transfer>
    decreases |body|
  {
    if body == [] then []
    else
      var page := Front(body);
      PageScript(page, addr, tag) + Script(body[|page|..], addr + |page|, tag + 1)
  }

  function Pages(n: nat): nat { (n + PAGE - 1) / PAGE }

  /** The launch behind the last page, of a complete image only. */
  function Launch(image: seq<byte>, tag: nat): seq<Transfer>
    requires |image| >= HEADER
  {
    if Size(image) <= |image| then [Command((tag + Pages(|Body(image)|)) % TWO32, 0, 4, EntryAddr(image))] else []
  }

  function Whole(image: seq<byte>, tag: nat): seq<Transfer>
    requires |image| >= HEADER
  {
    Script(Body(image), BaseAddr(image), tag) + Launch(image, tag)
  }

  // ---- what the device receives ----

  function Payload(ts: seq<Transfer>): seq<byte>
  {
    if ts == [] then [] else (if ts[0].Data? then ts[0].payload else []) + Payload(ts[1..])
  }

  lemma {:induction false} PayloadConcat(a: seq<Transfer>, b: seq<Transfer>)
    ensures Payload(a + b) == Payload(a) + Payload(b)
  {
    if a == [] {
      assert a + b == b;
    } else {
      assert (a + b)[0] == a[0] && (a + b)[1..] == a[1..] + b;
      PayloadConcat(a[1..], b);
    }
  }

  lemma {:induction false} PiecesCarry(page: seq<byte>)
    ensures Payload(Pieces(page)) == page
    ensures forall t :: t in Pieces(page) ==> t.Data? && 0 < |t.payload| <= PIECE
  {
    if |page| > PIECE {
      PiecesCarry(page[PIECE..]);
      assert ([Data(page[..PIECE])] + Pieces(page[PIECE..]))[1..] == Pieces(page[PIECE..]);
      assert page == page[..PIECE] + page[PIECE..];
    } else if page != [] {
      assert [Data(page)][1..] == [] && page + [] == page;
    }
  }

  lemma ScriptHead(body: seq<byte>, addr: nat, tag: nat)
    requires Script(body, addr, tag) != []
    ensures body != []
    ensures Script(body, addr, tag) ==
      PageScript(Front(body), addr, tag) + Script(body[|Front(body)|..], addr + |Front(body)|, tag + 1)
  {
  }

  /** Only the first transfer of a page is a command, and the page is what the others carry. */
  lemma PageCarries(page: seq<byte>, addr: nat, tag: nat)
    ensures Payload(PageScript(page, addr, tag)) == page
    ensures PageScript(page, addr, tag) != [] && forall t :: t in PageScript(page, addr, tag)[1..] ==> t.Data?
  {
    var head := [Command(tag % TWO32, |page|, 3, addr % TWO32)];
    PiecesCarry(page);
    PayloadConcat(head, Pieces(page));
    assert head[1..] == [] && [] + page == page;
    assert PageScript(page, addr, tag)[1..] == Pieces(page);
  }

  /** The pieces, put together, are the body. */
  lemma {:induction false} ScriptCarries(body: seq<byte>, addr: nat, tag: nat)
    ensures Payload(Script(body, addr, tag)) == body
    decreases |body|
  {
    if body != [] {
      hide Pieces, PageScript, Payload;
      var page := Front(body);
      ScriptCarries(body[|page|..], addr + |page|, tag + 1);
      PageCarries(page, addr, tag);
      PayloadConcat(PageScript(page, addr, tag), Script(body[|page|..], addr + |page|, tag + 1));
      assert body == page + body[|page|..];
    }
  }

  /** A command that is not the first of its page's transfers belongs to a later page. */
  lemma BehindPage(head: seq<Transfer>, rest: seq<Transfer>, i: nat)
    requires head != [] && 0 < i < |head + rest| && (head + rest)[i].Command? && forall t :: t in head[1..] ==> t.Data?
    ensures |head| <= i && (head + rest)[i] == rest[i - |head|]
    ensures |Payload((head + rest)[..i])| == |Payload(head)| + |Payload(rest[..i - |head|])|
  {
    forall k | 0 < k < |head| ensures (head + rest)[k].Data? {
      assert (head + rest)[k] == head[1..][k - 1];
    }
    assert (head + rest)[..i] == head + rest[..i - |head|];
    PayloadConcat(head, rest[..i - |head|]);
  }

  /** The number of bytes that follow before the next command. */
  function Carried(ts: seq<Transfer>): nat
  {
    if ts == [] || ts[0].Command? then 0 else |ts[0].payload| + Carried(ts[1..])
  }

  lemma CarriedStep(page: seq<byte>, ts: seq<Transfer>)
    ensures Carried([Data(page)] + ts) == |page| + Carried(ts)
  {
    assert ([Data(page)] + ts)[1..] == ts;
  }

  lemma {:induction false} CarriedByPieces(page: seq<byte>, rest: seq<Transfer>)
    requires Carried(rest) == 0
    ensures Carried(Pieces(page) + rest) == |page|
  {
    hide Carried;
    if page == [] {
      assert [] + rest == rest;
    } else if |page| <= PIECE {
      CarriedStep(page, rest);
    } else {
      CarriedByPieces(page[PIECE..], rest);
      CarriedStep(page[..PIECE], Pieces(page[PIECE..]) + rest);
      assert Pieces(page) + rest == [Data(page[..PIECE])] + (Pieces(page[PIECE..]) + rest);
    }
  }

  lemma StartsWithCommand(body: seq<byte>, addr: nat, tag: nat)
    ensures Carried(Script(body, addr, tag)) == 0
  {
  }

  /** Every command announces exactly the bytes sent before the next one, never more than a page, addressed
      behind the bytes sent before it. */
  lemma {:induction false} CommandsFollow(body: seq<byte>, addr: nat, tag: nat, i: nat)
    requires i < |Script(body, addr, tag)| && Script(body, addr, tag)[i].Command?
    ensures var s := Script(body, addr, tag);
      s[i].cmd == 3 && 0 < s[i].bytes == Carried(s[i + 1..]) <= PAGE && s[i].addr == (addr + |Payload(s[..i])|) % TWO32
    decreases |body|
  {
    hide Script, Pieces, Payload, Carried;
    ScriptHead(body, addr, tag);
    var page := Front(body);
    var head, rest := PageScript(page, addr, tag), Script(body[|page|..], addr + |page|, tag + 1);
    PageCarries(page, addr, tag);
    if i == 0 {
      assert (head + rest)[0] == head[0] && (head + rest)[..0] == [];
      NothingCarried();
      StartsWithCommand(body[|page|..], addr + |page|, tag + 1);
      CarriedByPieces(page, rest);
      assert (head + rest)[1..] == Pieces(page) + rest;
    } else {
      BehindPage(head, rest, i);
      CommandsFollow(body[|page|..], addr + |page|, tag + 1, i - |head|);
      assert (head + rest)[i + 1..] == rest[i - |head| + 1..];
    }
  }

  lemma NothingCarried()
    ensures Payload([]) == []
  {
  }

  // ---- the header and the last command ----

  /** The header on file: magic and version, then the base address, the size and the entry address. */
  lemma HeaderIsRead(front: seq<byte>, base: nat, size: nat, entry: nat, rest: seq<byte>)
    requires |front| == 12 && base < 0x1_0000_0000 && size < 0x1_0000_0000 && entry < 0x1_0000_0000
    ensures var image := front + LittleBytes(base) + LittleBytes(size) + LittleBytes(entry) + rest;
      |image| >= 24 && BaseAddr(image) == base && Size(image) == size && EntryAddr(image) == entry
  {
    hide Little32, LittleBytes;
    var b, s, e := LittleBytes(base), LittleBytes(size), LittleBytes(entry);
    var image := front + b + s + e + rest;
    LittleIsRead(front, base, s + e + rest);
    LittleIsRead(front + b, size, e + rest);
    LittleIsRead(front + b + s, entry, rest);
    assert image == front + b + (s + e + rest) == front + b + s + (e + rest);
  }

  /** Success means that the last transfer was the launch: no bytes, at the entry address of the header. */
  lemma LaunchIsLast(answers: seq<bool>, was: seq<Transfer>, image: seq<byte>, tag: nat, errno: int,
                     log: seq<Transfer>, ok: bool)
    requires Outcome(answers, was, image, tag, log, ok)
    requires |image| >= 24 && ReturnCode(image, errno, ok) == 0
    ensures |log| > |was| && var last := log[|log| - 1];
      last.Command? && last.bytes == 0 && last.cmd == 4 && last.addr == Little32(image, 20)
  {
    var plan := Whole(image, tag);
    assert log[|was|..] == plan && log[|log| - 1] == plan[|plan| - 1];
  }

  /** The number of pages. */
  lemma PagesAre(n: nat)
    ensures 0x4000 * Pages(n) >= n && (n > 0 ==> 0x4000 * (Pages(n) - 1) < n) && (n == 0 ==> Pages(n) == 0)
  {
  }

  /** The commands are numbered one after the other, the launch included. */
  lemma {:induction false} TagsFollow(body: seq<byte>, addr: nat, tag: nat)
    ensures var s := Script(body, addr, tag);
      && Commands(s) == Pages(|body|)
      && forall i :: 0 <= i < |s| && s[i].Command? ==> s[i].tag == (tag + Commands(s[..i])) % 0x1_0000_0000
    decreases |body|
  {
    hide Script, PageScript, Pages, Commands;
    if body == [] {
      NoCommands(addr, tag);
    } else {
      var page := Front(body);
      var head, rest := PageScript(page, addr, tag), Script(body[|page|..], addr + |page|, tag + 1);
      TagsFollow(body[|page|..], addr + |page|, tag + 1);
      PagesStep(|body|);
      ScriptOf(body, addr, tag);
      FrontCommands(page, addr, tag, rest);
      forall i | 0 <= i < |head + rest| && (head + rest)[i].Command?
        ensures (head + rest)[i].tag == (tag + Commands((head + rest)[..i])) % 0x1_0000_0000
      {
        assert i == 0 || i >= |head|;
      }
    }
  }

  lemma NoCommands(addr: nat, tag: nat)
    ensures Script([], addr, tag) == [] && Commands([]) == 0 == Pages(0)
  {
  }

  lemma ScriptOf(body: seq<byte>, addr: nat, tag: nat)
    requires body != []
    ensures var page := Front(body);
      && |page| == (if |body| <= PAGE then |body| else PAGE) && |body[|page|..]| == |body| - |page|
      && Script(body, addr, tag) == PageScript(page, addr, tag) + Script(body[|page|..], addr + |page|, tag + 1)
  {
    hide PageScript;
  }

  function Commands(ts: seq<Transfer>): nat
  {
    if ts == [] then 0 else Commands(ts[..|ts| - 1]) + if ts[|ts| - 1].Command? then 1 else 0
  }

  lemma PagesStep(n: nat)
    requires n > 0
    ensures Pages(n) == 1 + Pages(if n <= PAGE then 0 else n - PAGE)
  {
  }

  lemma {:induction false} CommandsConcat(a: seq<Transfer>, b: seq<Transfer>)
    ensures Commands(a + b) == Commands(a) + Commands(b)
    decreases |b|
  {
    if b == [] {
      assert a + b == a;
    } else {
      CommandsConcat(a, b[..|b| - 1]);
      assert (a + b)[..|a + b| - 1] == a + b[..|b| - 1];
    }
  }

  lemma {:induction false} DataIsNoCommand(ts: seq<Transfer>)
    requires forall t :: t in ts ==> t.Data?
    ensures Commands(ts) == 0
  {
    if ts != [] {
      assert ts[|ts| - 1] in ts;
      DataIsNoCommand(ts[..|ts| - 1]);
    }
  }

  lemma OneCommand(c: Transfer)
    ensures Commands([c]) == if c.Command? then 1 else 0
  {
    assert [c][..0] == [];
  }

  lemma HeadCommands(page: seq<byte>, addr: nat, tag: nat)
    ensures var head := PageScript(page, addr, tag);
      && head != [] && Commands(head) == 1 && head[0].Command? && head[0].tag == tag % 0x1_0000_0000
      && forall i :: 0 < i < |head| ==> head[i].Data?
  {
    hide Pieces, Commands;
    PiecesCarry(page);
    DataIsNoCommand(Pieces(page));
    var c := Command(tag % TWO32, |page|, 3, addr % TWO32);
    OneCommand(c);
    CommandsConcat([c], Pieces(page));
    forall i | 0 < i < 1 + |Pieces(page)| ensures ([c] + Pieces(page))[i].Data? {
      assert ([c] + Pieces(page))[i] == Pieces(page)[i - 1];
    }
  }

  lemma FrontCommands(page: seq<byte>, addr: nat, tag: nat, rest: seq<Transfer>)
    ensures var head := PageScript(page, addr, tag);
      && head != [] && Commands(head + rest) == 1 + Commands(rest)
      && (head + rest)[0].Command? && (head + rest)[0].tag == (tag + Commands((head + rest)[..0])) % 0x1_0000_0000
      && (forall i :: 0 < i < |head| ==> (head + rest)[i].Data?)
      && forall i :: |head| <= i < |head + rest| ==>
           (head + rest)[i] == rest[i - |head|] && Commands((head + rest)[..i]) == 1 + Commands(rest[..i - |head|])
  {
    hide PageScript, Commands;
    var head := PageScript(page, addr, tag);
    HeadCommands(page, addr, tag);
    CommandsConcat(head, rest);
    NoCommands(addr, tag);
    assert (head + rest)[..0] == [];
    forall i | |head| <= i < |head + rest|
      ensures Commands((head + rest)[..i]) == 1 + Commands(rest[..i - |head|])
    {
      assert (head + rest)[..i] == head + rest[..i - |head|];
      CommandsConcat(head, rest[..i - |head|]);
    }
  }

  // ---- the upload ----

  /** Whether the k-th bulk transfer works. */
  function Works(answers: seq<bool>, k: nat): bool { k >= |answers| || answers[k] }

  /** The log went on behind `was` with the plan: all of it, or up to a transfer that failed. */
  predicate Tried(answers: seq<bool>, was: seq<Transfer>, plan: seq<Transfer>, log: seq<Transfer>, ok: bool)
  {
    && was <= log && log[|was|..] <= plan && (ok ==> log[|was|..] == plan)
    && (forall k :: |was| <= k < |log| - (if ok then 0 else 1) ==> Works(answers, k))
    && (!ok ==> |log| > |was| && !Works(answers, |log| - 1))
  }

  lemma TriedBoth(answers: seq<bool>, was: seq<Transfer>, p: seq<Transfer>, mid: seq<Transfer>, q: seq<Transfer>,
                  log: seq<Transfer>, ok: bool)
    requires Tried(answers, was, p, mid, true) && Tried(answers, mid, q, log, ok)
    ensures Tried(answers, was, p + q, log, ok)
  {
    assert log[|was|..] == mid[|was|..] + log[|mid|..];
  }

  lemma TriedFirst(answers: seq<bool>, was: seq<Transfer>, p: seq<Transfer>, q: seq<Transfer>, log: seq<Transfer>)
    requires Tried(answers, was, p, log, false)
    ensures Tried(answers, was, p + q, log, false)
  {
  }

  /** What an upload leaves in the log: nothing for an image without a header. */
  predicate Outcome(answers: seq<bool>, was: seq<Transfer>, image: seq<byte>, tag: nat, log: seq<Transfer>, ok: bool)
  {
    if |image| < HEADER then log == was else Tried(answers, was, Whole(image, tag), log, ok)
  }

  function ReturnCode(image: seq<byte>, errno: int, ok: bool): int
  {
    if |image| < HEADER then -errno else if ok && Size(image) <= |image| then 0 else -1
  }

  /** The whole declared size was sent, and nothing else. */
  predicate AllSent(was: seq<Transfer>, image: seq<byte>, log: seq<Transfer>)
  {
    was <= log && |image| >= HEADER && Size(image) <= |image| && Payload(log[|was|..]) == image[..Size(image)]
  }

  lemma PlanCarries(image: seq<byte>, tag: nat)
    requires |image| >= HEADER
    ensures Payload(Whole(image, tag)) == Body(image)
  {
    var s, l := Script(Body(image), BaseAddr(image), tag), Launch(image, tag);
    ScriptCarries(Body(image), BaseAddr(image), tag);
    PayloadConcat(s, l);
    assert l != [] ==> l[1..] == [];
  }

  /** Success is returned exactly for an image that holds all the bytes it declares and of which every
      transfer works, and for one without a header when errno is 0. */
  lemma SuccessWhen(answers: seq<bool>, was: seq<Transfer>, image: seq<byte>, tag: nat, errno: int,
                    log: seq<Transfer>, ok: bool)
    requires Outcome(answers, was, image, tag, log, ok)
    ensures ReturnCode(image, errno, ok) == 0 <==>
      if |image| < HEADER then errno == 0
      else Size(image) <= |image| && forall k :: |was| <= k < |was| + |Whole(image, tag)| ==> Works(answers, k)
  {
    if |image| >= HEADER {
      assert |log| <= |was| + |Whole(image, tag)|;
    }
  }

  /** Success means that the device was sent exactly the declared bytes, for every image and every outcome,
      exactly when the image has a header or errno is not 0. */
  lemma SuccessMeansAll(answers: seq<bool>, was: seq<Transfer>, image: seq<byte>, tag: nat, errno: int,
                        log: seq<Transfer>, ok: bool)
    requires Outcome(answers, was, image, tag, log, ok)
    ensures (ReturnCode(image, errno, ok) == 0 ==> AllSent(was, image, log)) <==> !(|image| < HEADER && errno == 0)
  {
    if |image| >= HEADER {
      PlanCarries(image, tag);
    }
  }

  class Bus {
    var log: seq<Transfer>
    const answers: seq<bool>

    constructor (answers: seq<bool>)
      ensures log == [] && this.answers == answers
    {
      log, this.answers := [], answers;
    }

    /** fnusb_bulk: tried in any case. */
    method Bulk(t: Transfer) returns (ok: bool)
      modifies this
      ensures Tried(answers, old(log), [t], log, ok)
    {
      ok := Works(answers, |log|);
      log := log + [t];
    }

    lemma PiecesStep(page: seq<byte>, sent: nat)
      requires sent < |page|
      ensures var n := if |page| - sent > PIECE then PIECE else |page| - sent;
        Pieces(page[sent..]) == [Data(page[sent..sent + n])] + Pieces(page[sent + n..])
    {
      if |page| - sent > PIECE {
        assert page[sent..][..PIECE] == page[sent..sent + PIECE] && page[sent..][PIECE..] == page[sent + PIECE..];
      } else {
        assert page[sent..] == page[sent..sent + (|page| - sent)] && page[|page|..] == [];
      }
    }

    /** The inner loop. */
    method SendPieces(page: seq<byte>) returns (ok: bool)
      modifies this
      ensures Tried(answers, old(log), Pieces(page), log, ok)
    {
      hide Pieces;
      ghost var done: seq<Transfer> := [];
      var bytes_sent := 0;
      assert page[0..] == page && [] + Pieces(page) == Pieces(page);
      while bytes_sent < |page|
        invariant 0 <= bytes_sent <= |page|
        invariant done + Pieces(page[bytes_sent..]) == Pieces(page)
        invariant Tried(answers, old(log), done, log, true)
      {
        ghost var mid := log;
        var to_send := if |page| - bytes_sent > PIECE then PIECE else |page| - bytes_sent;
        var t := Data(page[bytes_sent..bytes_sent + to_send]);
        PiecesStep(page, bytes_sent);
        ok := Bulk(t);
        TriedBoth(answers, old(log), done, mid, [t], log, ok);
        Concat3(done, [t], Pieces(page[bytes_sent + to_send..]));
        if !ok {
          TriedFirst(answers, old(log), done + [t], Pieces(page[bytes_sent + to_send..]), log);
          return false;
        }
        done := done + [t];
        bytes_sent := bytes_sent + to_send;
      }
      NoPieces(page[bytes_sent..]);
      assert done + [] == done;
      return true;
    }

    lemma NoPieces(page: seq<byte>)
      requires page == []
      ensures Pieces(page) == []
    {
    }

    /** A command and its page. */
    method SendPage(page: seq<byte>, addr: nat, tag: nat) returns (ok: bool)
      modifies this
      ensures Tried(answers, old(log), PageScript(page, addr, tag), log, ok)
    {
      hide Pieces, Tried;
      var command := Command(tag % TWO32, |page|, 3, addr % TWO32);
      ok := Bulk(command);
      if !ok {
        TriedFirst(answers, old(log), [command], Pieces(page), log);
        return;
      }
      ghost var mid := log;
      ok := SendPieces(page);
      TriedBoth(answers, old(log), [command], mid, Pieces(page), log, ok);
    }

    lemma ScriptStep(body: seq<byte>, off: nat, addr: nat, tag: nat)
      requires off < |body|
      ensures var n := if |body| - off > PAGE then PAGE else |body| - off;
        Script(body[off..], addr, tag) ==
          PageScript(body[off..off + n], addr, tag) + Script(body[off + n..], addr + n, tag + 1)
    {
      if |body| - off > PAGE {
        assert body[off..][..PAGE] == body[off..off + PAGE] && body[off..][PAGE..] == body[off + PAGE..];
      } else {
        assert body[off..] == body[off..off + (|body| - off)] && body[off..][|body| - off..] == body[|body|..];
      }
    }

    lemma NothingLeft(body: seq<byte>, addr: nat, tag: nat)
      ensures Script(body[|body|..], addr, tag) == []
    {
    }

    lemma PageCount(n: nat, k: nat)
      requires PAGE * k >= n && (k > 0 ==> PAGE * (k - 1) < n)
      ensures k == Pages(n)
    {
    }

    static lemma BodySlice(image: seq<byte>, i: nat, n: nat)
      requires |image| >= HEADER && i + n <= |Body(image)|
      ensures |Body(image)| <= |image| && image[i..i + n] == Body(image)[i..i + n]
    {
    }

    /** The outer loop: all pages of the body. */
    method SendBody(image: seq<byte>, tag: nat) returns (ok: bool, tag': nat)
      requires |image| >= HEADER
      modifies this
      ensures Tried(answers, old(log), Script(Body(image), BaseAddr(image), tag), log, ok)
      ensures ok ==> tag' == tag + Pages(|Body(image)|)
    {
      hide Script, Tried, Pieces, PageScript;
      ghost var body, base, done := Body(image), BaseAddr(image), [];
      var readIndex, bytesLeft, addr, pages := 0, |image|, BaseAddr(image), 0;
      assert body[0..] == body && [] + Script(body, base, tag) == Script(body, base, tag);
      NothingTried(answers, log);
      var read := 1;
      while read > 0
        invariant 0 <= readIndex <= |body| && bytesLeft == |image| - readIndex && addr == base + readIndex
        invariant PAGE * pages >= readIndex && (readIndex < |body| ==> readIndex == PAGE * pages)
        invariant pages > 0 ==> PAGE * (pages - 1) < readIndex
        invariant done + Script(body[readIndex..], addr, tag + pages) == Script(body, base, tag)
        invariant Tried(answers, old(log), done, log, true)
        invariant read == 0 ==> readIndex == |body|
        decreases |body| - readIndex, read
      {
        read := if PAGE > Size(image) - readIndex then Size(image) - readIndex else PAGE;
        if read > bytesLeft {
          read := bytesLeft;
        }
        if read <= 0 {
          break;
        }
        var page := image[readIndex..readIndex + read];
        BodySlice(image, readIndex, read);
        ScriptStep(body, readIndex, addr, tag + pages);
        ghost var mid, plan := log, PageScript(page, addr, tag + pages);
        ghost var rest := Script(body[readIndex + read..], addr + read, tag + pages + 1);
        ok := SendPage(page, addr, tag + pages);
        TriedBoth(answers, old(log), done, mid, plan, log, ok);
        Concat3(done, plan, rest);
        if !ok {
          TriedFirst(answers, old(log), done + plan, rest, log);
          return false, tag + pages;
        }
        done := done + plan;
        readIndex, bytesLeft, addr, pages := readIndex + read, bytesLeft - read, addr + read, pages + 1;
      }
      NothingLeft(body, addr, tag + pages);
      assert done + [] == done;
      PageCount(|body|, pages);
      return true, tag + pages;
    }

    static lemma NothingTried(answers: seq<bool>, log: seq<Transfer>)
      ensures Tried(answers, log, [], log, true)
    {
    }

    /** upload_firmware_from_memory */
    method UploadFromMemory(image: seq<byte>, tag: nat, errno: int) returns (ret: int, ghost ok: bool)
      modifies this
      ensures Outcome(answers, old(log), image, tag, log, ok) && ret == ReturnCode(image, errno, ok)
    {
      hide Tried, Script;
      ok := false;
      if |image| < HEADER {
        return -errno, false;
      }
      var sent, tag';
      sent, tag' := SendBody(image, tag);
      ghost var plan := Script(Body(image), BaseAddr(image), tag);
      if !sent {
        TriedFirst(answers, old(log), plan, Launch(image, tag), log);
        return -1, false;
      }
      if |image| < Size(image) {
        assert plan + [] == plan;
        return -1, true;
      }
      ghost var mid := log;
      var launched := Bulk(Command(tag' % TWO32, 0, 4, EntryAddr(image)));
      TriedBoth(answers, old(log), plan, mid, Launch(image, tag), log, launched);
      ret, ok := if launched then 0 else -1, launched;
    }

    /** The same, with what its caller learns from the code it returns. */
    method Upload(image: seq<byte>, tag: nat, errno: int) returns (ret: int, ghost ok: bool)
      modifies this
      ensures Outcome(answers, old(log), image, tag, log, ok) && ret == ReturnCode(image, errno, ok)
      ensures (ret == 0 ==> AllSent(old(log), image, log)) <==> !(|image| < HEADER && errno == 0)
    {
      ret, ok := UploadFromMemory(image, tag, errno);
      SuccessMeansAll(answers, old(log), image, tag, errno, log, ok);
    }
  }

  /** An image without even a header is reported as sent when errno happens to be 0, and nothing is sent. */
  method EmptyImageSucceeds(bus: Bus) returns (ret: int)
    modifies bus
    ensures ret == 0 && bus.log == old(bus.log)
  {
    ghost var ok;
    ret, ok := bus.Upload([], 0, 0);
  }
}
