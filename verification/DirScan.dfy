/** Directory lookup of `kernel/fat32.c`: a scan over a buffer that grows cluster
    by cluster gives the answer of one scan of the whole directory. */
module DirScan {
  import opened Arith
  import opened Pages
  import opened CacheSpec
  import opened BlockCache
  import opened FatSpec
  import opened FatFile
  import opened Fat
  import opened LongName

  /** A byte string as directory slots. */
  function SlotsOf(bytes: seq<Byte>): (s: seq<Slot>)
    ensures |s| == |bytes| / SLOT
  {
    seq<Slot>(|bytes| / SLOT, i requires 0 <= i < |bytes| / SLOT => bytes[SLOT * i..SLOT * i + SLOT])
  }

  lemma SlotsOfPrefix(bytes: seq<Byte>, n: nat)
    requires n <= |bytes| && n % SLOT == 0
    ensures n / SLOT <= |SlotsOf(bytes)| && SlotsOf(bytes[..n]) == SlotsOf(bytes)[..n / SLOT]
  {
    var s, t := SlotsOf(bytes[..n]), SlotsOf(bytes);
    forall i | 0 <= i < n / SLOT
      ensures s[i] == t[i]
    {
      assert bytes[..n][SLOT * i..SLOT * i + SLOT] == bytes[SLOT * i..SLOT * i + SLOT];
    }
  }

  /** An entry of a directory: the slot it ends in, and its name. */
  datatype Item = Item(at: nat, entry: Slot, name: seq<Byte>)

  /** Every entry met by a scan from slot low on has a name that can be read. */
  ghost predicate Scannable(mem: seq<Slot>, low: nat)
    requires 0 < low <= |mem|
    decreases |mem| - low
  {
    FirstReal(mem, low) == |mem|
    || (FindFirst(mem, low, PG_SIZE).Entry? && Scannable(mem, low + FindFirst(mem, low, PG_SIZE).slots))
  }

  /** The entries of a directory in order, by one scan. */
  ghost function Items(mem: seq<Slot>, low: nat): (r: seq<Item>)
    requires 0 < low <= |mem|
    decreases |mem| - low
  {
    match FindFirst(mem, low, PG_SIZE)
    case Entry(n, entry, name) => [Item(low + n - 1, entry, CString(name))] + Items(mem, low + n)
    case _ => []
  }

  /** The first entry with a name. */
  ghost function FirstNamed(items: seq<Item>, name: seq<Byte>): (r: Option<Item>)
    ensures r.None? <==> forall i | 0 <= i < |items| :: items[i].name != name
    ensures r.Some? ==> r.value in items && r.value.name == name
  {
    if items == [] then None
    else if items[0].name == name then Some(items[0])
    else
      assert items == [items[0]] + items[1..];
      FirstNamed(items[1..], name)
  }

  /** The first real slot of a longer buffer. */
  lemma {:induction false} FirstRealLonger(mem: seq<Slot>, p: nat, low: nat)
    requires low <= p <= |mem|
    ensures var k := FirstReal(mem[..p], low);
            if k < p then FirstReal(mem, low) == k else FirstReal(mem, low) == FirstReal(mem, p)
    decreases p - low
  {
    if low < p && IsSkipped(mem[low]) { FirstRealLonger(mem, p, low + 1); }
  }

  lemma {:induction false} TextLonger(mem: seq<Slot>, p: nat, low: nat, i: nat, room: int)
    requires i < p <= |mem|
    ensures ReadText(mem[..p], low, i, room) == ReadText(mem, low, i, room)
    decreases i
  {
    if i > 0 { TextLonger(mem, p, low, i - 1, room - LFN_LEN); }
  }

  /** What is found in the part of a directory that was read is what is found in
      the whole; nothing is found exactly when the next entry ends later. */
  lemma FindLonger(mem: seq<Slot>, p: nat, low: nat)
    requires 0 < low <= p <= |mem| && Scannable(mem, low)
    ensures FindFirst(mem[..p], low, PG_SIZE) != OverBase
    ensures FindFirst(mem[..p], low, PG_SIZE) != OverSize ==>
              FindFirst(mem[..p], low, PG_SIZE) == FindFirst(mem, low, PG_SIZE)
    ensures FindFirst(mem[..p], low, PG_SIZE) == OverSize <==> FirstReal(mem, low) >= p
  {
    FirstRealLonger(mem, p, low);
    var k := FirstReal(mem[..p], low);
    if k < p {
      TextLonger(mem, p, low, k - 1, PG_SIZE);
      assert mem[..p][k] == mem[k] && mem[..p][k - 1] == mem[k - 1];
    }
  }

  lemma ItemsStep(mem: seq<Slot>, low: nat)
    requires 0 < low <= |mem| && Scannable(mem, low)
    ensures match FindFirst(mem, low, PG_SIZE)
            case Entry(n, entry, name) =>
              && low + n <= |mem| && n > 0 && Scannable(mem, low + n)
              && Items(mem, low) == [Item(low + n - 1, entry, CString(name))] + Items(mem, low + n)
            case _ => FirstReal(mem, low) == |mem| && Items(mem, low) == []
  {
  }

  lemma FirstNamedStep(item: Item, rest: seq<Item>, name: seq<Byte>)
    ensures FirstNamed([item] + rest, name) == if item.name == name then Some(item) else FirstNamed(rest, name)
  {
    assert ([item] + rest)[1..] == rest;
  }

  /** The directory as `lookup_entry` sees it: one slot of memory in front of the
      page, then the clusters of the chain end to end. */
  ghost function Directory(before: Slot, view: Disk, vol: Volume, n: Info, ch: seq<nat>): (s: seq<Slot>)
    requires Readable(view, vol, n, ch)
    ensures |s| > 0
  {
    [before] + SlotsOf(Content(view, vol, n, ch))
  }

  lemma SeenPart(before: Slot, content: seq<Byte>, n: nat)
    requires n <= |content| && n % SLOT == 0
    ensures 1 + n / SLOT <= 1 + |SlotsOf(content)|
    ensures [before] + SlotsOf(content[..n]) == ([before] + SlotsOf(content))[..1 + n / SLOT]
  {
    SlotsOfPrefix(content, n);
  }

  /** There is room for a cluster in a page buffer that is not full. */
  lemma RoomForCluster(j: nat, cs: nat, maxSize: nat)
    requires cs > 0 && PG_SIZE % cs == 0 && maxSize % PG_SIZE == 0 && j * cs < maxSize
    ensures j * cs + cs <= maxSize
  {
    var m := (maxSize / PG_SIZE) * (PG_SIZE / cs);
    Regroup(maxSize / PG_SIZE, PG_SIZE / cs, cs);
    assert maxSize == m * cs;
    if m <= j { Scale(m, j, cs); }
    Scale(j + 1, m, cs);
    NextMultiple(j, cs);
  }

  /** `read_to_buffer` of one cluster behind the ones read before. */
  method ReadMore(fs: FatFs, ghost ch: seq<nat>, ghost j: nat, cid: nat, buffer: seq<Byte>) returns (more: seq<Byte>)
    requires fs.Valid() && IsFile(fs.fat[..], ch, fs.Limit()) && j < |ch| && cid == ch[j]
    requires Readable(fs.cache.view, fs.vol, fs.info, ch)
    requires |buffer| == j * ClusterSize(fs.info) <= |Content(fs.cache.view, fs.vol, fs.info, ch)|
    requires buffer == Content(fs.cache.view, fs.vol, fs.info, ch)[..|buffer|]
    modifies fs.cache`disk, fs.cache`order, fs.cache`releases, fs.cache.bufs, fs.cache.next, fs.cache.prev
    ensures fs.Valid() && fs.cache.Counts() == old(fs.cache.Counts()) && Readable(fs.cache.view, fs.vol, fs.info, ch)
    ensures |more| == (j + 1) * ClusterSize(fs.info) <= |Content(fs.cache.view, fs.vol, fs.info, ch)|
    ensures more == Content(fs.cache.view, fs.vol, fs.info, ch)[..|more|] && fs.fat[..] == old(fs.fat[..])
  {
    hide BlockCache.Valid, Geometry, Content, Readable, IsChain, IsFile, ClusterLimit, OneToOne, ClusterSize, Slice,
         IsValidCid, ClusterBlock;
    fs.InView();
    fs.OfChain(ch);
    WholeBlocks(fs.info);
    var cs := ClusterSize(fs.info);
    ghost var content, p := Content(fs.cache.view, fs.vol, fs.info, ch), j * cs;
    ReadInChain(fs.cache.view, fs.vol, fs.info, ch, j, 0, cs);
    var bid, blocks := ClusterBlock(fs.info, cid), cs / BSIZE;
    assert blocks * BSIZE == cs && bid * BSIZE + 0 == bid * BSIZE;
    var chunk := fs.cache.ReadBlocks(fs.vol, bid, blocks);
    assert chunk == content[p..p + cs];
    NextMultiple(j, cs);
    more := buffer + chunk;
    assert more == content[..p + cs];
  }

  /** The directory ends within the bytes read: the next cluster, behind them in
      a buffer twice as long when it is full; none at the end of the chain. */
  method Extend(fs: FatFs, ghost ch: seq<nat>, ghost j: nat, cid: nat, buffer: seq<Byte>, maxSize: nat)
    returns (ok: bool, next: nat, more: seq<Byte>, size: nat)
    requires fs.Valid() && IsFile(fs.fat[..], ch, fs.Limit()) && 1 <= j <= |ch| && cid == ch[j - 1]
    requires Readable(fs.cache.view, fs.vol, fs.info, ch)
    requires ClusterSize(fs.info) > 0 && PG_SIZE % ClusterSize(fs.info) == 0 && maxSize % PG_SIZE == 0 && maxSize > 0
    requires |buffer| == j * ClusterSize(fs.info) <= |Content(fs.cache.view, fs.vol, fs.info, ch)|
    requires buffer == Content(fs.cache.view, fs.vol, fs.info, ch)[..|buffer|] && |buffer| <= maxSize
    modifies fs.cache`disk, fs.cache`order, fs.cache`releases, fs.cache.bufs, fs.cache.next, fs.cache.prev
    ensures fs.Valid() && fs.cache.Counts() == old(fs.cache.Counts()) && fs.fat[..] == old(fs.fat[..])
    ensures Readable(fs.cache.view, fs.vol, fs.info, ch)
    ensures ok <==> j < |ch|
    ensures ok ==> && next == ch[j] && size % PG_SIZE == 0 && |more| <= size
                   && |more| == (j + 1) * ClusterSize(fs.info) <= |Content(fs.cache.view, fs.vol, fs.info, ch)|
                   && more == Content(fs.cache.view, fs.vol, fs.info, ch)[..|more|]
  {
    hide BlockCache.Valid, Geometry, Content, Readable, IsChain, IsFile, ClusterLimit, OneToOne, ClusterSize,
         IsValidCid, FatFs.Valid;
    fs.OfChain(ch);
    Next(fs.fat[..], ch, j - 1);
    next, more, size := fs.fat[cid], buffer, maxSize;
    if !IsValidCid(next) {
      return false, next, more, size;
    }
    if |buffer| >= maxSize {
      size := maxSize * 2;
    }
    RoomForCluster(j, ClusterSize(fs.info), size);
    NextMultiple(j, ClusterSize(fs.info));
    more := ReadMore(fs, ch, j, next, buffer);
    ok := true;
  }

  /** One round of the scan, on values: p slots of the directory are in the
      buffer, the scan stands at slot low. */
  lemma ScanRound(whole: seq<Slot>, p: nat, low: nat, name: seq<Byte>)
    requires 0 < low <= p <= |whole| && Scannable(whole, low)
    ensures match FindFirst(whole[..p], low, PG_SIZE)
            case Entry(n, e, text) =>
              && 0 < n && low + n <= p && Scannable(whole, low + n)
              && (var item := Item(low + n - 1, e, CString(text));
                  FirstNamed(Items(whole, low), name)
                  == if item.name == name then Some(item) else FirstNamed(Items(whole, low + n), name))
            case OverSize => p == |whole| ==> FirstNamed(Items(whole, low), name) == None
            case OverBase => false
  {
    hide FirstNamed, Items, Scannable;
    FindLonger(whole, p, low);
    ItemsStep(whole, low);
    match FindFirst(whole[..p], low, PG_SIZE) {
      case Entry(n, e, text) =>
        FirstNamedStep(Item(low + n - 1, e, CString(text)), Items(whole, low + n), name);
      case OverSize =>
        if p == |whole| { assert FirstNamed([], name) == None; }
    }
  }

  /** `lookup_entry` in the directory whose chain is ch: the first entry with the
      name in one scan of the whole directory. */
  method LookupEntry(fs: FatFs, start: nat, ghost ch: seq<nat>, filename: seq<Byte>, before: Slot)
    returns (index: int, entry: Slot)
    requires fs.Valid() && IsFile(fs.fat[..], ch, fs.Limit()) && ch[0] == start
    requires ClusterSize(fs.info) > 0 && PG_SIZE % ClusterSize(fs.info) == 0
    requires Readable(fs.cache.view, fs.vol, fs.info, ch)
             && Scannable(Directory(before, fs.cache.view, fs.vol, fs.info, ch), 1)
    modifies fs.cache`disk, fs.cache`order, fs.cache`releases, fs.cache.bufs, fs.cache.next, fs.cache.prev
    ensures fs.Valid() && fs.cache.Counts() == old(fs.cache.Counts()) && Readable(fs.cache.view, fs.vol, fs.info, ch)
    ensures match FirstNamed(Items(Directory(before, fs.cache.view, fs.vol, fs.info, ch), 1), filename)
            case None => index == -1
            case Some(item) => index == item.at - 1 && entry == item.entry
  {
    hide BlockCache.Valid, Geometry, Content, Readable, IsChain, IsFile, ClusterLimit, OneToOne, ClusterSize,
         Scannable, Items, FindFirst,
         FirstNamed, IsValidCid, Slice, FatFs.Valid, FirstReal, SlotsOf, CString, Directory, BlockCache.Counts, OnDisk;
    fs.OfChain(ch);
    var cs, cid, offset: nat, maxSize := ClusterSize(fs.info), start, 0, PG_SIZE;
    WholeBlocks(fs.info);
    ghost var content := Content(fs.cache.view, fs.vol, fs.info, ch);
    ghost var whole, j: nat, at: nat := Directory(before, fs.cache.view, fs.vol, fs.info, ch), 1, 0;
    ghost var goal := FirstNamed(Items(whole, 1), filename);
    entry := before;
    var buffer := ReadMore(fs, ch, 0, cid, []);
    while true
      invariant fs.Valid() && fs.cache.Counts() == old(fs.cache.Counts()) && fs.cache.view == old(fs.cache.view)
      invariant fs.fat[..] == old(fs.fat[..]) && maxSize % PG_SIZE == 0 && maxSize > 0
      invariant 1 <= j <= |ch| && cid == ch[j - 1] && |buffer| == j * cs <= |content| && buffer == content[..|buffer|]
      invariant offset == SLOT * at && offset <= |buffer| <= maxSize
      invariant 1 + at <= |whole| && Scannable(whole, 1 + at) && FirstNamed(Items(whole, 1 + at), filename) == goal
      decreases |ch| - j, |buffer| - offset
    {
      BufferPart(before, fs.cache.view, fs.vol, fs.info, ch, j, buffer);
      ScanRound(whole, 1 + |buffer| / SLOT, 1 + at, filename);
      var found := FindFirstEntry([before] + SlotsOf(buffer), 1 + offset / SLOT, PG_SIZE);
      match found {
        case OverSize =>
          var ok;
          ok, cid, buffer, maxSize := Extend(fs, ch, j, cid, buffer, maxSize);
          if !ok {
            return -1, entry;
          }
          NextMultiple(j, cs);
          j := j + 1;
        case Entry(n, e, name) =>
          offset := offset + SLOT * n;
          at := at + n;
          entry := e;
          if CString(name) == filename {
            return offset / SLOT - 1, e;
          }
      }
    }
  }

  lemma BufferPart(before: Slot, view: Disk, vol: Volume, n: Info, ch: seq<nat>, j: nat, buffer: seq<Byte>)
    requires Readable(view, vol, n, ch) && j <= |ch| && |buffer| == j * ClusterSize(n) <= |Content(view, vol, n, ch)|
    requires |Content(view, vol, n, ch)| == |ch| * ClusterSize(n)
    requires buffer == Content(view, vol, n, ch)[..|buffer|]
    ensures |buffer| % SLOT == 0 && 1 + |buffer| / SLOT <= |Directory(before, view, vol, n, ch)|
    ensures [before] + SlotsOf(buffer) == Directory(before, view, vol, n, ch)[..1 + |buffer| / SLOT]
    ensures j == |ch| ==> 1 + |buffer| / SLOT == |Directory(before, view, vol, n, ch)|
  {
    hide SlotsOf, Content, Readable, ClusterSize;
    WholeBlocks(n);
    WholeSlots(j, ClusterSize(n));
    SeenPart(before, Content(view, vol, n, ch), |buffer|);
  }

  lemma WholeSlots(j: nat, cs: nat)
    requires cs % SLOT == 0
    ensures (j * cs) % SLOT == 0
  {
    Regroup(j, cs / SLOT, SLOT);
  }

  /* ---- creation and lookup together ---- */

  /** The slots `fat32_create_inode` wrote into a buffer, seen by the scan. */
  lemma CreatedSlots(before: Slot, buf: seq<Byte>, at: nat, name: seq<Byte>, check: Byte)
    requires at % SLOT == 0 && SLOT * SlotsFor(|name|) <= at <= |buf|
    requires forall i: nat | i < SlotsFor(|name|) :: SlotWritten(buf, at, name, check, i)
    ensures NameAt([before] + SlotsOf(buf), 1 + at / SLOT, name, check)
  {
    hide SlotFor;
    var mem, e := [before] + SlotsOf(buf), 1 + at / SLOT;
    forall i: nat | i < SlotsFor(|name|)
      ensures LFN_LEN * i < |name| && mem[e - 1 - i] == SlotFor(name, i, check)
    {
      assert SlotWritten(buf, at, name, check, i);
      var x := e - 2 - i;
      assert mem[e - 1 - i] == SlotsOf(buf)[x] && SLOT * x == at - SLOT * (i + 1) && SLOT * x + SLOT == at - SLOT * i;
    }
  }

  /** A long-named entry is listed under its name, cut after 64 slots. */
  lemma {:induction false} EntryListed(mem: seq<Slot>, low: nat, e: nat, name: seq<Byte>, check: Byte)
    requires 0 < low && e < |mem| && low + SlotsFor(|name|) <= e && Scannable(mem, low)
    requires !IsSkipped(mem[e]) && NameAt(mem, e, name, check)
    requires name != [] && NoNul(name) && LFN_LEN * SlotsFor(|name|) < PG_SIZE
    ensures Item(e, mem[e], if |name| <= LFN_LEN * LFN_MAX then name else name[..LFN_LEN * LFN_MAX]) in Items(mem, low)
    decreases e - low
  {
    hide SlotFor, FindFirst, Items, Scannable, NameAt;
    var k := FirstReal(mem, low);
    RunSkipped(mem, low, e, name, check);
    ItemsStep(mem, low);
    FoundPlace(mem, low);
    if k == e {
      NameReadBack(mem, low, e, name, check, PG_SIZE);
    } else {
      EntryListed(mem, k + 1, e, name, check);
    }
  }

  lemma FoundPlace(mem: seq<Slot>, low: nat)
    requires 0 < low <= |mem|
    ensures var r := FindFirst(mem, low, PG_SIZE);
            r.Entry? ==> FirstReal(mem, low) < |mem| && r.slots == FirstReal(mem, low) + 1 - low
  {
  }

  lemma RunSkipped(mem: seq<Slot>, low: nat, e: nat, name: seq<Byte>, check: Byte)
    requires low <= e < |mem| && !IsSkipped(mem[e]) && NameAt(mem, e, name, check)
    ensures FirstReal(mem, low) == e || FirstReal(mem, low) + SlotsFor(|name|) < e
  {
    var k := FirstReal(mem, low);
    if e - SlotsFor(|name|) <= k < e {
      var i: nat := e - 1 - k;
      assert mem[e - 1 - i] == SlotFor(name, i, check);
      SlotMarks(name, i, check);
      assert false;
    }
  }

  /** A created file is found by its name exactly when the name has at most 832
      bytes, unless another entry bears it. */
  lemma CreatedIsFoundIff(mem: seq<Slot>, e: nat, name: seq<Byte>, check: Byte)
    requires e < |mem| && 1 + SlotsFor(|name|) <= e && Scannable(mem, 1)
    requires !IsSkipped(mem[e]) && NameAt(mem, e, name, check)
    requires name != [] && NoNul(name) && LFN_LEN * SlotsFor(|name|) < PG_SIZE
    requires forall item | item in Items(mem, 1) && item.at != e :: item.name != name
    ensures FirstNamed(Items(mem, 1), name)
         == if |name| <= LFN_LEN * LFN_MAX then Some(Item(e, mem[e], name)) else None
  {
    EntryListed(mem, 1, e, name, check);
    var text := if |name| <= LFN_LEN * LFN_MAX then name else name[..LFN_LEN * LFN_MAX];
    forall item | item in Items(mem, 1) && item.at == e
      ensures item == Item(e, mem[e], text)
    {
      OneItemAt(mem, 1, item, Item(e, mem[e], text));
    }
  }

  /** The slots `fat32_create_inode` wrote into a directory's bytes in front of a
      short entry make the scan find that entry, or not, by the same rule. */
  lemma CreatedInBuffer(before: Slot, buf: seq<Byte>, at: nat, name: seq<Byte>, check: Byte)
    requires at % SLOT == 0 && SLOT * SlotsFor(|name|) <= at && at + SLOT <= |buf|
    requires forall i: nat | i < SlotsFor(|name|) :: SlotWritten(buf, at, name, check, i)
    requires name != [] && NoNul(name) && LFN_LEN * SlotsFor(|name|) < PG_SIZE
    requires !IsSkipped(buf[at..at + SLOT])
    requires Scannable([before] + SlotsOf(buf), 1)
    requires forall item | item in Items([before] + SlotsOf(buf), 1) && item.at != 1 + at / SLOT :: item.name != name
    ensures FirstNamed(Items([before] + SlotsOf(buf), 1), name)
         == if |name| <= LFN_LEN * LFN_MAX then Some(Item(1 + at / SLOT, buf[at..at + SLOT], name)) else None
  {
    hide SlotFor, FindFirst, Items, Scannable, FirstNamed, SlotWritten;
    CreatedSlots(before, buf, at, name, check);
    assert ([before] + SlotsOf(buf))[1 + at / SLOT] == buf[at..at + SLOT];
    CreatedIsFoundIff([before] + SlotsOf(buf), 1 + at / SLOT, name, check);
  }

  /* ---- short names ---- */

  /** Slot e holds an entry that has no long name. */
  ghost predicate ShortNamed(mem: seq<Slot>, e: nat) {
    0 < e < |mem| && !PassedOver(mem[e]) && (mem[e - 1][11] == 0x0f ==> mem[e - 1][0] == 0xe5)
  }

  lemma {:induction false} ShortListed(mem: seq<Slot>, low: nat, e: nat)
    requires 0 < low <= e && ShortNamed(mem, e) && Scannable(mem, low)
    ensures Item(e, mem[e], CString(mem[e][..8])) in Items(mem, low)
    decreases e - low
  {
    hide FindFirst, Items, Scannable, CString;
    var k := FirstReal(mem, low);
    assert !IsSkipped(mem[e]) && k <= e;
    ItemsStep(mem, low);
    FoundPlace(mem, low);
    if k == e {
      ShortFound(mem, low, e, PG_SIZE);
      assert mem[e][..8] == [mem[e][0], mem[e][1], mem[e][2], mem[e][3], mem[e][4], mem[e][5], mem[e][6], mem[e][7]];
    } else {
      ShortListed(mem, k + 1, e);
    }
  }

  /** A file with a short name only is found under its 8 bytes, in its own slot,
      unless another entry bears that name. */
  lemma ShortIsFound(mem: seq<Slot>, e: nat, name: seq<Byte>)
    requires ShortNamed(mem, e) && Scannable(mem, 1)
    requires |name| == 8 && NoNul(name) && forall i | 0 <= i < 8 :: mem[e][i] == name[i]
    requires forall item | item in Items(mem, 1) && item.at != e :: item.name != name
    ensures FirstNamed(Items(mem, 1), name) == Some(Item(e, mem[e], name))
  {
    hide FindFirst, Items, Scannable, FirstNamed;
    assert mem[e][..8] == name && name[..8] == name;
    CStringOf(name, 8);
    ShortListed(mem, 1, e);
    forall item | item in Items(mem, 1) && item.at == e
      ensures item == Item(e, mem[e], name)
    {
      OneItemAt(mem, 1, item, Item(e, mem[e], name));
    }
  }

  /** Entry i of a directory's bytes, so named, is what `lookup_entry` finds. */
  lemma ShortInBuffer(before: Slot, buf: seq<Byte>, i: nat)
    requires 32 * i + 32 <= |buf| && NoNul(buf[32 * i..32 * i + 8]) && buf[32 * i + 11] !in {0x0f, 0x80}
    requires var prior := if i == 0 then before else buf[32 * i - 32..32 * i];
             prior[11] == 0x0f ==> prior[0] == 0xe5
    requires Scannable([before] + SlotsOf(buf), 1)
    requires forall item | item in Items([before] + SlotsOf(buf), 1) && item.at != 1 + i ::
               item.name != buf[32 * i..32 * i + 8]
    ensures FirstNamed(Items([before] + SlotsOf(buf), 1), buf[32 * i..32 * i + 8])
         == Some(Item(1 + i, buf[32 * i..32 * i + 32], buf[32 * i..32 * i + 8]))
  {
    hide FindFirst, Items, Scannable, FirstNamed, NoNul;
    var mem, name := [before] + SlotsOf(buf), buf[32 * i..32 * i + 8];
    assert mem[1 + i] == buf[32 * i..32 * i + 32];
    if i > 0 { assert mem[i] == buf[32 * (i - 1)..32 * (i - 1) + 32]; }
    ShortIsFound(mem, 1 + i, name);
  }

  lemma Listed(mem: seq<Slot>, low: nat, item: Item)
    requires 0 < low <= |mem| && item in Items(mem, low)
    ensures var r := FindFirst(mem, low, PG_SIZE);
            && r.Entry? && r.slots > 0 && low + r.slots <= |mem|
            && (item == Item(low + r.slots - 1, r.entry, CString(r.name)) || item in Items(mem, low + r.slots))
  {
    hide CString, ReadText;
  }

  lemma {:induction false} ItemsAfter(mem: seq<Slot>, low: nat, item: Item)
    requires 0 < low <= |mem| && item in Items(mem, low)
    ensures item.at >= low
    decreases |mem| - low
  {
    hide Items, FindFirst;
    Listed(mem, low, item);
    var next := low + FindFirst(mem, low, PG_SIZE).slots;
    if item in Items(mem, next) { ItemsAfter(mem, next, item); }
  }

  lemma {:induction false} OneItemAt(mem: seq<Slot>, low: nat, a: Item, b: Item)
    requires 0 < low <= |mem| && a in Items(mem, low) && b in Items(mem, low) && a.at == b.at
    ensures a == b
    decreases |mem| - low
  {
    hide Items, FindFirst;
    Listed(mem, low, a);
    Listed(mem, low, b);
    var next := low + FindFirst(mem, low, PG_SIZE).slots;
    if a in Items(mem, next) { ItemsAfter(mem, next, a); }
    if b in Items(mem, next) { ItemsAfter(mem, next, b); }
    if a in Items(mem, next) && b in Items(mem, next) { OneItemAt(mem, next, a, b); }
  }
}
