/** Long file names of `kernel/fat32.c`: the slots written when a file is
    created, and their reading back. */
module LongName {
  import opened CacheSpec
  import opened FatSpec

  const T_LFN: Byte := 0x0f
  const T_FREE: Byte := 0x80
  const E_DEL: Byte := 0xe5
  const LFN_LEN: nat := 13
  const LFN_MAX: nat := 64          // a slot with this number reads as the last one

  /** A directory entry as its 32 bytes. */
  type Slot = s: seq<Byte> | |s| == SLOT witness seq(SLOT, _ => 0)

  function IdOf(s: Slot): Byte { s[0] }
  function TypeOf(s: Slot): Byte { s[11] }

  /** Bit 0x40 of the id. */
  predicate IsLast(s: Slot) { (IdOf(s) / 64) % 2 == 1 }

  predicate IsSkipped(s: Slot) { TypeOf(s) == T_LFN || TypeOf(s) == T_FREE }

  /** Where the low byte of 16-bit unit k lies: name1, name2, name3. */
  function CharPos(k: nat): nat
    requires k < LFN_LEN
  {
    if k < 5 then 1 + 2 * k else if k < 11 then 14 + 2 * (k - 5) else 28 + 2 * (k - 11)
  }

  /** The unit byte x of a slot belongs to, LFN_LEN when it is no text. */
  function UnitOf(x: nat): (k: nat)
    requires x < SLOT
    ensures k < LFN_LEN <==> (1 <= x < 11 || 14 <= x < 26 || 28 <= x)
    ensures k < LFN_LEN ==> x == CharPos(k) || x == CharPos(k) + 1
  {
    if 1 <= x < 11 then (x - 1) / 2 else if 14 <= x < 26 then 5 + (x - 14) / 2
    else if 28 <= x then 11 + (x - 28) / 2 else LFN_LEN
  }

  lemma UnitAt(k: nat)
    requires k < LFN_LEN
    ensures CharPos(k) + 1 < SLOT && UnitOf(CharPos(k)) == k && UnitOf(CharPos(k) + 1) == k
  {
  }

  /** `lfn2name`: the low bytes of the 13 units. */
  function Chars(s: Slot): (t: seq<Byte>)
    ensures |t| == LFN_LEN
  {
    seq<Byte>(LFN_LEN, k requires 0 <= k < LFN_LEN => s[CharPos(k)])
  }

  /** The bytes of a slot after the first n units of name were stored in it. */
  function Lettered(s: Slot, name: seq<Byte>, n: nat): Slot
    requires n <= LFN_LEN && n <= |name|
  {
    seq<Byte>(SLOT, x requires 0 <= x < SLOT => LetterAt(s, name, n, x))
  }

  function LetterAt(s: Slot, name: seq<Byte>, n: nat, x: nat): Byte
    requires n <= LFN_LEN && n <= |name| && x < SLOT
  {
    if UnitOf(x) >= n then s[x] else if x == CharPos(UnitOf(x)) then name[UnitOf(x)] else 0
  }

  /** A C string: the bytes before the first NUL. */
  function CString(s: seq<Byte>): seq<Byte> {
    if s == [] || s[0] == 0 then [] else [s[0]] + CString(s[1..])
  }

  /** The number of slots for a name: its length over 13, rounded up. */
  function SlotsFor(len: nat): nat { (len + 12) / LFN_LEN }

  /** lfn_id as stored: the number of the slot, with bit 0x40 set on the last. */
  function SlotId(i: nat, slots: nat): Byte {
    var id := if i + 1 == slots && ((i + 1) / 64) % 2 == 0 then i + 1 + 64 else i + 1;
    id % 256
  }

  function ZeroSlot(): Slot { seq(SLOT, _ => 0) }

  function Marked(s: Slot, check: Byte): Slot {
    s[..11] + [T_LFN] + s[12..13] + [check] + s[14..]
  }

  function WithId(s: Slot, id: Byte): Slot {
    [id] + s[1..]
  }

  /** `name2lfn` on a slot. */
  function NameSlot(s: Slot, name: seq<Byte>, check: Byte): Slot {
    Lettered(Marked(s, check), name, if |name| < LFN_LEN then |name| else LFN_LEN)
  }

  /** Slot i of a name, counted from the one next to the short entry. */
  function SlotFor(name: seq<Byte>, i: nat, check: Byte): Slot
    requires LFN_LEN * i < |name|
  {
    WithId(NameSlot(ZeroSlot(), name[LFN_LEN * i..], check), SlotId(i, SlotsFor(|name|)))
  }

  /** The text a slot carries at unit k: the name, then NULs. */
  function UnitText(name: seq<Byte>, i: nat, k: nat): Byte {
    if 13 * i + k < |name| then name[13 * i + k] else 0
  }

  /** A slot byte by byte, as `struct lfn_entry` lays it out: the number, with bit
      0x40 on the last one, five units, type, zero, checksum, six units, a zero word,
      two units. */
  lemma SlotLayout(name: seq<Byte>, i: nat, check: Byte)
    requires 13 * i < |name|
    ensures var s := SlotFor(name, i, check);
            && (|name| <= 13 * 63 ==> s[0] == if 13 * (i + 1) < |name| then i + 1 else i + 1 + 0x40)
            && s[11] == 0x0f && s[12] == 0 && s[13] == check && s[26] == 0 && s[27] == 0
            && (forall k | 0 <= k < 5 :: s[1 + 2 * k] == UnitText(name, i, k) && s[2 + 2 * k] == 0)
            && (forall k | 0 <= k < 6 :: s[14 + 2 * k] == UnitText(name, i, 5 + k) && s[15 + 2 * k] == 0)
            && (forall k | 0 <= k < 2 :: s[28 + 2 * k] == UnitText(name, i, 11 + k) && s[29 + 2 * k] == 0)
  {
    hide SlotFor, UnitText;
    SlotRest(name, i, check);
    var s := SlotFor(name, i, check);
    forall k: nat | k < 5
      ensures s[1 + 2 * k] == UnitText(name, i, k) && s[2 + 2 * k] == 0
    {
      SlotUnit(name, i, check, k);
    }
    forall k: nat | k < 6
      ensures s[14 + 2 * k] == UnitText(name, i, 5 + k) && s[15 + 2 * k] == 0
    {
      SlotUnit(name, i, check, 5 + k);
    }
    forall k: nat | k < 2
      ensures s[28 + 2 * k] == UnitText(name, i, 11 + k) && s[29 + 2 * k] == 0
    {
      SlotUnit(name, i, check, 11 + k);
    }
  }

  /** How many units of the name go into slot i. */
  function UnitsIn(name: seq<Byte>, i: nat): (n: nat)
    requires LFN_LEN * i <= |name|
    ensures n <= LFN_LEN && n <= |name| - LFN_LEN * i
  {
    if |name| - LFN_LEN * i < LFN_LEN then |name| - LFN_LEN * i else LFN_LEN
  }

  /** Behind the number a slot is what `name2lfn` made of a cleared one. */
  lemma SlotByte(name: seq<Byte>, i: nat, check: Byte, x: nat)
    requires LFN_LEN * i < |name| && 0 < x < SLOT
    ensures SlotFor(name, i, check)[x]
         == LetterAt(Marked(ZeroSlot(), check), name[LFN_LEN * i..], UnitsIn(name, i), x)
  {
    hide LetterAt, Marked, SlotId, SlotsFor, ZeroSlot;
    var m, rest, n := Marked(ZeroSlot(), check), name[LFN_LEN * i..], UnitsIn(name, i);
    assert NameSlot(ZeroSlot(), rest, check) == Lettered(m, rest, n);
    assert Lettered(m, rest, n)[x] == LetterAt(m, rest, n, x);
  }

  lemma SlotUnit(name: seq<Byte>, i: nat, check: Byte, k: nat)
    requires 13 * i < |name| && k < LFN_LEN
    ensures CharPos(k) + 1 < SLOT
    ensures SlotFor(name, i, check)[CharPos(k)] == UnitText(name, i, k)
    ensures SlotFor(name, i, check)[CharPos(k) + 1] == 0
  {
    UnitAt(k);
    MarkedRest(check, CharPos(k));
    MarkedRest(check, CharPos(k) + 1);
    hide SlotFor, Marked, CharPos, ZeroSlot;
    assert 0 < CharPos(k) by { CharPlace(k); }
    SlotByte(name, i, check, CharPos(k));
    SlotByte(name, i, check, CharPos(k) + 1);
  }

  lemma CharPlace(k: nat)
    requires k < LFN_LEN
    ensures 0 < CharPos(k)
  {
  }

  lemma MarkedRest(check: Byte, x: nat)
    requires x < SLOT
    ensures Marked(ZeroSlot(), check)[x] == if x == 11 then T_LFN else if x == 13 then check else 0
    ensures UnitOf(11) == UnitOf(12) == UnitOf(13) == UnitOf(26) == UnitOf(27) == LFN_LEN
    ensures UnitOf(x) < LFN_LEN ==> x != 11 && x != 13
  {
  }

  lemma SlotRest(name: seq<Byte>, i: nat, check: Byte)
    requires 13 * i < |name|
    ensures var s := SlotFor(name, i, check);
            && (|name| <= 13 * 63 ==> s[0] == if 13 * (i + 1) < |name| then i + 1 else i + 1 + 0x40)
            && s[11] == 0x0f && s[12] == 0 && s[13] == check && s[26] == 0 && s[27] == 0
  {
    SlotNumber(name, i, check);
    hide SlotFor, Marked, ZeroSlot, UnitOf;
    forall x: nat | x in {11, 12, 13, 26, 27}
      ensures SlotFor(name, i, check)[x] == if x == 11 then T_LFN else if x == 13 then check else 0
    {
      SlotByte(name, i, check, x);
      MarkedRest(check, x);
    }
  }

  lemma SlotNumber(name: seq<Byte>, i: nat, check: Byte)
    requires 13 * i < |name|
    ensures |name| <= 13 * 63 ==>
              SlotFor(name, i, check)[0] == if 13 * (i + 1) < |name| then i + 1 else i + 1 + 0x40
  {
    hide NameSlot;
    assert SlotFor(name, i, check)[0] == SlotId(i, SlotsFor(|name|));
  }

  /* ---- writing ---- */

  class SlotWriter {
    const buf: array<Byte>

    constructor (buf: array<Byte>)
      ensures this.buf == buf
    {
      this.buf := buf;
    }

    /** One loop of `name2lfn`: 16-bit units from field on, until count units or
        the end of the name. */
    method PutUnits(at: nat, name: seq<Byte>, done: nat, end: nat) returns (n: nat)
      requires at + SLOT <= buf.Length && done <= end <= LFN_LEN && done <= |name|
      requires forall k | done <= k < end :: CharPos(k) == CharPos(done) + 2 * (k - done)
      modifies buf
      ensures n == if |name| < end then |name| else end
      ensures forall s: Slot | old(buf[at..at + SLOT]) == Lettered(s, name, done) ::
              buf[at..at + SLOT] == Lettered(s, name, n)
      ensures buf[..at] == old(buf[..at]) && buf[at + SLOT..] == old(buf[at + SLOT..])
    {
      n := done;
      while n < |name| && n < end
        invariant done <= n <= |name| && n <= end
        invariant forall s: Slot | old(buf[at..at + SLOT]) == Lettered(s, name, done) ::
                  buf[at..at + SLOT] == Lettered(s, name, n)
        invariant buf[..at] == old(buf[..at]) && buf[at + SLOT..] == old(buf[at + SLOT..])
      {
        UnitAt(n);
        ghost var was := buf[at..at + SLOT];
        var p := at + CharPos(n);
        buf[p], buf[p + 1] := name[n], 0;
        assert buf[at..at + SLOT] == was[CharPos(n) := name[n]][CharPos(n) + 1 := 0];
        forall s: Slot | was == Lettered(s, name, n)
          ensures buf[at..at + SLOT] == Lettered(s, name, n + 1)
        {
          LetterMore(s, name, n);
        }
        n := n + 1;
      }
    }

    /** `name2lfn`. */
    method Name2Lfn(at: nat, name: seq<Byte>, check: Byte)
      requires at + SLOT <= buf.Length
      modifies buf
      ensures buf[at..at + SLOT] == NameSlot(old(buf[at..at + SLOT]), name, check)
      ensures buf[..at] == old(buf[..at]) && buf[at + SLOT..] == old(buf[at + SLOT..])
    {
      ghost var s: Slot := Marked(buf[at..at + SLOT], check);
      buf[at + 13] := check;
      buf[at + 11] := T_LFN;
      assert buf[at..at + SLOT] == s == Lettered(s, name, 0);
      var n := PutUnits(at, name, 0, 5);
      if n == 5 {
        n := PutUnits(at, name, 5, 11);
        if n == 11 {
          n := PutUnits(at, name, 11, 13);
        }
      }
    }

    method CreateSlot(entry: nat, name: seq<Byte>, check: Byte, id: Byte)
      requires entry + SLOT <= buf.Length && forall x | entry <= x < entry + SLOT :: buf[x] == 0
      modifies buf
      ensures buf[entry..entry + SLOT] == WithId(NameSlot(ZeroSlot(), name, check), id)
      ensures buf[..entry] == old(buf[..entry]) && buf[entry + SLOT..] == old(buf[entry + SLOT..])
    {
      assert buf[entry..entry + SLOT] == ZeroSlot();
      Name2Lfn(entry, name, check);
      ghost var slot: Slot := buf[entry..entry + SLOT];
      buf[entry] := id;
      assert buf[entry..entry + SLOT] == WithId(slot, id);
    }

    /** The slot loop of `fat32_create_inode`: downwards from the short entry at
        at, into slots that were cleared. */
    method CreateSlots(at: nat, name: seq<Byte>, check: Byte)
      requires SLOT * SlotsFor(|name|) <= at <= buf.Length
      requires forall x | at - SLOT * SlotsFor(|name|) <= x < at :: buf[x] == 0
      modifies buf
      ensures forall i: nat | i < SlotsFor(|name|) :: SlotWritten(buf[..], at, name, check, i)
      ensures buf[..at - SLOT * SlotsFor(|name|)] == old(buf[..at - SLOT * SlotsFor(|name|)])
              && buf[at..] == old(buf[at..])
    {
      hide NameSlot, WithId, ZeroSlot, Lettered, SlotFor, SlotWritten;
      var entry, left, rest, id := at, |name|, name, 1;
      ghost var i: nat, low := 0, at - SLOT * SlotsFor(|name|);
      while left > 0
        invariant entry == at - SLOT * i && left == |name| - LFN_LEN * i && i <= SlotsFor(|name|)
        invariant rest == (if left >= 0 then name[LFN_LEN * i..] else []) && (left > 0 ==> id == i + 1)
        invariant forall x | low <= x < entry :: buf[x] == 0
        invariant forall j: nat | j < i :: SlotWritten(buf[..], at, name, check, j)
        invariant buf[..low] == old(buf[..low]) && buf[at..] == old(buf[at..])
      {
        LastSlot(|name|, i);
        ghost var was := buf[..];
        entry := entry - SLOT;
        var last := left <= LFN_LEN;
        var n := if last && (id / 64) % 2 == 0 then id + 64 else id;
        CreateSlot(entry, rest, check, n % 256);
        rest := if left >= LFN_LEN then rest[LFN_LEN..] else [];
        left := left - LFN_LEN;
        id := n + 1;
        Outside(was, buf[..], entry);
        forall j: nat | j < i
          ensures SlotWritten(buf[..], at, name, check, j)
        {
          Stays(was, buf[..], entry, at, name, check, j);
        }
        Appears(buf[..], at, name, check, i, n % 256);
        i := i + 1;
      }
    }
  }

  /** Slot j of the name lies below the short entry at at. */
  ghost predicate SlotWritten(s: seq<Byte>, at: nat, name: seq<Byte>, check: Byte, j: nat) {
    && LFN_LEN * j < |name| && SLOT * (j + 1) <= at <= |s|
    && s[at - SLOT * (j + 1)..at - SLOT * j] == SlotFor(name, j, check)
  }

  lemma Appears(s: seq<Byte>, at: nat, name: seq<Byte>, check: Byte, i: nat, id: Byte)
    requires LFN_LEN * i < |name| && SLOT * (i + 1) <= at <= |s| && id == SlotId(i, SlotsFor(|name|))
    requires var entry := at - SLOT * (i + 1);
             s[entry..entry + SLOT] == WithId(NameSlot(ZeroSlot(), name[LFN_LEN * i..], check), id)
    ensures SlotWritten(s, at, name, check, i)
  {
  }

  lemma Stays(was: seq<Byte>, now: seq<Byte>, entry: nat, at: nat, name: seq<Byte>, check: Byte, j: nat)
    requires |now| == |was| && entry + SLOT <= |was| && SlotWritten(was, at, name, check, j)
             && entry + SLOT <= at - SLOT * (j + 1)
    requires now[..entry] == was[..entry] && now[entry + SLOT..] == was[entry + SLOT..]
    ensures SlotWritten(now, at, name, check, j)
  {
    Outside(was, now, entry);
    assert now[at - SLOT * (j + 1)..at - SLOT * j] == was[at - SLOT * (j + 1)..at - SLOT * j];
  }

  lemma Outside(was: seq<Byte>, now: seq<Byte>, entry: nat)
    requires |now| == |was| && entry + SLOT <= |was|
    requires now[..entry] == was[..entry] && now[entry + SLOT..] == was[entry + SLOT..]
    ensures forall x | 0 <= x < |was| && (x < entry || entry + SLOT <= x) :: now[x] == was[x]
  {
    forall x | 0 <= x < |was| && (x < entry || entry + SLOT <= x)
      ensures now[x] == was[x]
    {
      if x < entry { assert now[..entry][x] == was[..entry][x]; }
      else { assert now[entry + SLOT..][x - entry - SLOT] == was[entry + SLOT..][x - entry - SLOT]; }
    }
  }

  lemma LastSlot(len: nat, i: nat)
    requires LFN_LEN * i < len
    ensures i < SlotsFor(len) && (i + 1 == SlotsFor(len) <==> len <= LFN_LEN * (i + 1))
  {
  }

  lemma LetterMore(s: Slot, name: seq<Byte>, n: nat)
    requires n < LFN_LEN && n < |name|
    ensures CharPos(n) + 1 < SLOT
    ensures Lettered(s, name, n)[CharPos(n) := name[n]][CharPos(n) + 1 := 0] == Lettered(s, name, n + 1)
  {
    UnitAt(n);
  }

  /* ---- reading ---- */

  datatype Text = Got(bytes: seq<Byte>) | TooLong | NoStart

  /** The name loop of `find_first_entry`: from slot i of mem up to a slot marked
      as the last, not below slot low, into a buffer of room bytes. */
  function ReadText(mem: seq<Slot>, low: nat, i: nat, room: int): Text
    requires i < |mem|
    decreases i
  {
    if room < 14 then TooLong
    else if IsLast(mem[i]) then Got(Chars(mem[i]))
    else if i == 0 || i - 1 < low then NoStart
    else match ReadText(mem, low, i - 1, room - LFN_LEN)
         case Got(rest) => Got(Chars(mem[i]) + rest)
         case other => other
  }

  /** The first slot from i on that is neither a name slot nor free; |mem| when
      there is none. */
  function FirstReal(mem: seq<Slot>, i: nat): (k: nat)
    requires i <= |mem|
    ensures i <= k <= |mem| && (k < |mem| ==> !IsSkipped(mem[k]))
    ensures forall j | i <= j < k :: IsSkipped(mem[j])
    decreases |mem| - i
  {
    if i == |mem| || !IsSkipped(mem[i]) then i else FirstReal(mem, i + 1)
  }

  /** The result of `find_first_entry`: the number of slots used, the entry, and
      its name without the final NUL. */
  datatype Found = Entry(slots: nat, entry: Slot, name: seq<Byte>) | OverSize | OverBase

  /** `find_first_entry` on the slots of mem from low on. The slot before low is
      looked at as well. */
  function FindFirst(mem: seq<Slot>, low: nat, nameSize: int): Found
    requires 0 < low <= |mem|
  {
    var k := FirstReal(mem, low);
    if k == |mem| then OverSize
    else if TypeOf(mem[k - 1]) != T_LFN || IdOf(mem[k - 1]) == E_DEL then
      if nameSize < 9 then OverSize else Entry(k + 1 - low, mem[k], mem[k][..8])
    else
      match ReadText(mem, low, k - 1, nameSize)
      case Got(name) => Entry(k + 1 - low, mem[k], name)
      case TooLong => OverSize
      case NoStart => OverBase
  }

  /** Byte 11 of a name slot and of a free one. */
  predicate PassedOver(s: Slot) { s[11] in {0x0f, 0x80} }

  /** The first slot from low on that is neither a name slot nor a free one, behind
      no name slot or a deleted one: its own first 8 bytes are the name, and there is
      room for it exactly from 9 bytes on. */
  lemma {:induction false} ShortFound(mem: seq<Slot>, low: nat, e: nat, nameSize: int)
    requires 0 < low <= e < |mem| && !PassedOver(mem[e])
    requires forall j | low <= j < e :: PassedOver(mem[j])
    requires mem[e - 1][11] == 0x0f ==> mem[e - 1][0] == 0xe5
    ensures FindFirst(mem, low, nameSize)
         == if nameSize >= 9
            then Entry(e + 1 - low, mem[e], [mem[e][0], mem[e][1], mem[e][2], mem[e][3], mem[e][4], mem[e][5],
                                             mem[e][6], mem[e][7]])
            else OverSize
  {
    assert FirstReal(mem, low) == e;
  }

  /** Slot i has bit 0x40 of its number set. */
  predicate LastMark(s: Slot) { (s[0] / 64) % 2 == 1 }

  /** From slot i down to the first marked one, j: its text, when there is room for it
      and a NUL. */
  lemma {:induction false} TextDownTo(mem: seq<Slot>, low: nat, i: nat, j: nat, room: int)
    requires j <= i < |mem| && (low <= j || j == i) && LastMark(mem[j]) && forall x | j < x <= i :: !LastMark(mem[x])
    ensures var r := ReadText(mem, low, i, room);
            if room < LFN_LEN * (i - j) + 14 then r == TooLong
            else && r.Got? && |r.bytes| == LFN_LEN * (i - j + 1)
                 && forall x | 0 <= x < |r.bytes| :: r.bytes[x] == Chars(mem[i - x / LFN_LEN])[x % LFN_LEN]
    decreases i
  {
    hide Chars;
    if j < i && room >= 14 {
      TextDownTo(mem, low, i - 1, j, room - LFN_LEN);
      var r, rest := ReadText(mem, low, i, room), ReadText(mem, low, i - 1, room - LFN_LEN);
      if rest.Got? {
        forall x | 0 <= x < |r.bytes|
          ensures r.bytes[x] == Chars(mem[i - x / LFN_LEN])[x % LFN_LEN]
        {
          if x >= LFN_LEN {
            assert (x - LFN_LEN) / LFN_LEN == x / LFN_LEN - 1 && (x - LFN_LEN) % LFN_LEN == x % LFN_LEN;
          }
        }
      }
    }
  }

  /** Without a marked slot the loop runs below slot low. */
  lemma {:induction false} TextUnmarked(mem: seq<Slot>, low: nat, i: nat, room: int)
    requires i < |mem| && !LastMark(mem[i]) && forall x | low <= x <= i :: !LastMark(mem[x])
    ensures ReadText(mem, low, i, room)
         == if room < (if i <= low then 14 else LFN_LEN * (i - low) + 14) then TooLong else NoStart
    decreases i
  {
    if i > low && room >= 14 { TextUnmarked(mem, low, i - 1, room - LFN_LEN); }
  }

  /** The first real slot from low on, behind a name slot that is not deleted: its name
      is the text of the slots down to the first marked one, not below low, if there
      is room for it and a NUL; without a marked one the loop leaves the buffer. */
  lemma LongFound(mem: seq<Slot>, low: nat, e: nat, nameSize: int)
    requires 0 < low <= e < |mem| && !PassedOver(mem[e]) && forall j | low <= j < e :: PassedOver(mem[j])
    requires mem[e - 1][11] == 0x0f && mem[e - 1][0] != 0xe5
    ensures forall j: nat | j < e && (low <= j || j == e - 1) && LastMark(mem[j])
                            && (forall x | j < x < e :: !LastMark(mem[x])) ::
              var r := FindFirst(mem, low, nameSize);
              if nameSize < LFN_LEN * (e - 1 - j) + 14 then r == OverSize
              else && r.Entry? && r.slots == e + 1 - low && r.entry == mem[e] && |r.name| == LFN_LEN * (e - j)
                   && forall x | 0 <= x < |r.name| :: r.name[x] == Chars(mem[e - 1 - x / LFN_LEN])[x % LFN_LEN]
    ensures !LastMark(mem[e - 1]) && (forall x | low <= x < e :: !LastMark(mem[x])) ==>
              FindFirst(mem, low, nameSize)
              == if nameSize < (if e - 1 <= low then 14 else LFN_LEN * (e - 1 - low) + 14) then OverSize else OverBase
  {
    assert FirstReal(mem, low) == e;
    hide Chars, ReadText, FirstReal;
    forall j: nat | j < e && (low <= j || j == e - 1) && LastMark(mem[j])
                    && (forall x | j < x < e :: !LastMark(mem[x]))
      ensures var r := FindFirst(mem, low, nameSize);
              if nameSize < LFN_LEN * (e - 1 - j) + 14 then r == OverSize
              else && r.Entry? && r.slots == e + 1 - low && r.entry == mem[e] && |r.name| == LFN_LEN * (e - j)
                   && forall x | 0 <= x < |r.name| :: r.name[x] == Chars(mem[e - 1 - x / LFN_LEN])[x % LFN_LEN]
    {
      TextDownTo(mem, low, e - 1, j, nameSize);
    }
    if !LastMark(mem[e - 1]) && (forall x | low <= x < e :: !LastMark(mem[x])) {
      TextUnmarked(mem, low, e - 1, nameSize);
    }
  }

  /** `find_first_entry`. */
  method FindFirstEntry(mem: seq<Slot>, low: nat, nameSize: int) returns (r: Found)
    requires 0 < low <= |mem|
    ensures r == FindFirst(mem, low, nameSize)
  {
    var k := low;
    if k == |mem| {
      return OverSize;
    }
    while IsSkipped(mem[k])
      invariant low <= k < |mem| && FirstReal(mem, low) == FirstReal(mem, k)
      decreases |mem| - k
    {
      k := k + 1;
      if k == |mem| {
        return OverSize;
      }
    }
    var i := k - 1;
    if TypeOf(mem[i]) != T_LFN || IdOf(mem[i]) == E_DEL {
      if nameSize < 9 {
        return OverSize;
      }
      return Entry(k + 1 - low, mem[k], mem[k][..8]);
    }
    var text := ReadName(mem, low, i, nameSize);
    match text {
      case Got(name) => r := Entry(k + 1 - low, mem[k], name);
      case TooLong => r := OverSize;
      case NoStart => r := OverBase;
    }
  }

  /** Its name loop, towards lower addresses. */
  method ReadName(mem: seq<Slot>, low: nat, start: nat, nameSize: int) returns (r: Text)
    requires start < |mem|
    ensures r == ReadText(mem, low, start, nameSize)
  {
    hide Chars;
    var name, room, i: nat := [], nameSize, start;
    while !IsLast(mem[i])
      invariant i < |mem|
      invariant ReadText(mem, low, start, nameSize) == Before(name, ReadText(mem, low, i, room))
      decreases i
    {
      if room < 14 {
        return TooLong;
      }
      if i == 0 || i - 1 < low {
        return NoStart;
      }
      BeforeTwice(name, Chars(mem[i]), ReadText(mem, low, i - 1, room - LFN_LEN));
      name := name + Chars(mem[i]);
      room := room - LFN_LEN;
      i := i - 1;
    }
    if room < 14 {
      return TooLong;
    }
    return Got(name + Chars(mem[i]));
  }

  function Before(name: seq<Byte>, rest: Text): Text {
    match rest case Got(t) => Got(name + t) case other => other
  }

  lemma BeforeTwice(a: seq<Byte>, b: seq<Byte>, rest: Text)
    ensures Before(a, Before(b, rest)) == Before(a + b, rest)
    ensures Before([], rest) == rest
  {
    if rest.Got? {
      assert a + (b + rest.bytes) == (a + b) + rest.bytes;
      assert [] + rest.bytes == rest.bytes;
    }
  }

  /* ---- the round trip ---- */

  /** The text of slots a to b - 1 of a name, padded with NULs. */
  function Padded(name: seq<Byte>, a: nat, b: nat): (t: seq<Byte>)
    requires a <= b
    ensures |t| == LFN_LEN * (b - a)
  {
    seq<Byte>(LFN_LEN * (b - a), x requires 0 <= x < LFN_LEN * (b - a) =>
      if LFN_LEN * a + x < |name| then name[LFN_LEN * a + x] else 0)
  }

  ghost predicate NoNul(s: seq<Byte>) { forall i | 0 <= i < |s| :: s[i] != 0 }

  lemma SlotText(name: seq<Byte>, i: nat, check: Byte)
    requires LFN_LEN * i < |name|
    ensures Chars(SlotFor(name, i, check)) == Padded(name, i, i + 1)
  {
    var slot := SlotFor(name, i, check);
    forall k | 0 <= k < LFN_LEN
      ensures Chars(slot)[k] == Padded(name, i, i + 1)[k]
    {
      UnitAt(k);
      SlotByte(name, i, check, CharPos(k));
    }
  }

  lemma SlotMarks(name: seq<Byte>, i: nat, check: Byte)
    requires LFN_LEN * i < |name|
    ensures var slot := SlotFor(name, i, check);
            && TypeOf(slot) == T_LFN && IdOf(slot) == SlotId(i, SlotsFor(|name|))
  {
  }

  /** Bit 0x40 shows on the last slot and, by its number, on the 64th. */
  lemma EndsAt(i: nat, slots: nat)
    requires i < slots && i < LFN_MAX
    ensures var id := SlotId(i, slots);
            && id != E_DEL && ((id / 64) % 2 == 1 <==> i + 1 == slots || i + 1 == LFN_MAX)
  {
  }

  /** The slots of a name below the entry at e. */
  ghost predicate NameAt(mem: seq<Slot>, e: nat, name: seq<Byte>, check: Byte) {
    && SlotsFor(|name|) <= e <= |mem|
    && forall i: nat {:trigger SlotFor(name, i, check)} | i < SlotsFor(|name|) ::
         LFN_LEN * i < |name| && mem[e - 1 - i] == SlotFor(name, i, check)
  }

  function Stop(slots: nat): nat { if slots < LFN_MAX then slots else LFN_MAX }

  lemma JoinPadded(name: seq<Byte>, a: nat, b: nat, c: nat)
    requires a <= b <= c
    ensures Padded(name, a, b) + Padded(name, b, c) == Padded(name, a, c)
  {
  }

  lemma {:induction false} ReadBack(mem: seq<Slot>, low: nat, e: nat, name: seq<Byte>, check: Byte, i: nat, room: int)
    requires NameAt(mem, e, name, check) && i < Stop(SlotsFor(|name|)) && low + SlotsFor(|name|) <= e
    requires room > LFN_LEN * (SlotsFor(|name|) - i)
    ensures ReadText(mem, low, e - 1 - i, room) == Got(Padded(name, i, Stop(SlotsFor(|name|))))
    decreases Stop(SlotsFor(|name|)) - i
  {
    hide Padded, Chars, SlotFor;
    var m, slot := Stop(SlotsFor(|name|)), SlotFor(name, i, check);
    assert mem[e - 1 - i] == slot;
    SlotText(name, i, check);
    SlotMarks(name, i, check);
    EndsAt(i, SlotsFor(|name|));
    if i + 1 < m {
      ReadBack(mem, low, e, name, check, i + 1, room - LFN_LEN);
      JoinPadded(name, i, i + 1, m);
    }
  }

  lemma {:induction false} CStringOf(s: seq<Byte>, n: nat)
    requires n <= |s| && NoNul(s[..n]) && (n < |s| ==> s[n] == 0)
    ensures CString(s) == s[..n]
    decreases n
  {
    if n > 0 {
      assert s[..n][0] == s[0];
      var t := s[1..][..n - 1];
      forall i | 0 <= i < |t|
        ensures t[i] != 0
      {
        assert t[i] == s[..n][i + 1];
      }
      CStringOf(s[1..], n - 1);
      assert s[..n] == [s[0]] + s[1..][..n - 1];
    }
  }

  lemma PaddedText(name: seq<Byte>, m: nat)
    requires NoNul(name) && m <= SlotsFor(|name|)
    ensures var n := if LFN_LEN * m < |name| then LFN_LEN * m else |name|;
            CString(Padded(name, 0, m)) == name[..n]
  {
    var n := if LFN_LEN * m < |name| then LFN_LEN * m else |name|;
    assert Padded(name, 0, m)[..n] == name[..n];
    CStringOf(Padded(name, 0, m), n);
  }

  /** A name read back is the name written, cut after 64 slots. */
  lemma NameReadBack(mem: seq<Slot>, low: nat, e: nat, name: seq<Byte>, check: Byte, nameSize: int)
    requires 0 < low && e < |mem| && NameAt(mem, e, name, check) && low + SlotsFor(|name|) <= e
    requires name != [] && NoNul(name) && nameSize > LFN_LEN * SlotsFor(|name|)
    requires FirstReal(mem, low) == e
    ensures var r, n := FindFirst(mem, low, nameSize), LFN_LEN * LFN_MAX;
            && r.Entry? && r.slots == e + 1 - low && r.entry == mem[e]
            && CString(r.name) == if |name| <= n then name else name[..n]
  {
    hide SlotFor, Padded;
    var m := Stop(SlotsFor(|name|));
    assert mem[e - 1 - 0] == SlotFor(name, 0, check);
    SlotMarks(name, 0, check);
    EndsAt(0, SlotsFor(|name|));
    ReadBack(mem, low, e, name, check, 0, nameSize);
    PaddedText(name, m);
    assert name[..|name|] == name;
  }

  /** Names round-trip exactly up to 832 bytes, 64 slots. */
  lemma RoundTripIff(mem: seq<Slot>, low: nat, e: nat, name: seq<Byte>, check: Byte, nameSize: int)
    requires 0 < low && e < |mem| && NameAt(mem, e, name, check) && low + SlotsFor(|name|) <= e
    requires name != [] && NoNul(name) && nameSize > LFN_LEN * SlotsFor(|name|)
    requires FirstReal(mem, low) == e
    ensures var r := FindFirst(mem, low, nameSize);
            && r.Entry? && r.entry == mem[e]
            && (CString(r.name) == name <==> SlotsFor(|name|) <= LFN_MAX)
  {
    NameReadBack(mem, low, e, name, check, nameSize);
  }

  /** A name of 833 letters a takes 65 slots and comes back with 832. No path of
      a system call is so long: MAX_PATH is 256. */
  lemma CutName(mem: seq<Slot>, low: nat, e: nat, name: seq<Byte>, check: Byte)
    requires |name| == 833 && forall i | 0 <= i < 833 :: name[i] == 97
    requires 0 < low && e < |mem| && NameAt(mem, e, name, check) && low + 65 <= e && FirstReal(mem, low) == e
    ensures var r := FindFirst(mem, low, 4096); SlotsFor(833) == 65 && r.Entry? && CString(r.name) == name[..832]
  {
    NameReadBack(mem, low, e, name, check, 4096);
  }
}
