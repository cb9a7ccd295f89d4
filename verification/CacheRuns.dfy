/** `read_block` of `kernel/bio.c` in several calls at once. A call sleeps during
    its transfer, with the cache unlocked and no lock on the buffer; others run
    meanwhile. A transfer takes effect when it ends. */
module CacheRuns {
  import opened CacheSpec

  /** What a caller is in: writing its victim back, loading its buffer, or working
      on it. A caller that works on several buffers is several of these. */
  datatype Call =
    | Idle
    | Flushing(buf: nat, from: Key, key: Key)
    | Reading(buf: nat, key: Key)
    | Holds(buf: nat, key: Key)

  /** order is the list, most recently used first; view is what was last written
      to each block by whoever meant to write it. */
  datatype Cache = Cache(bufs: seq<Buf>, order: seq<nat>, disk: Disk, calls: seq<Call>, view: Disk)

  /** Ask is `read_block` up to its first sleep or return, Finish what follows when
      its transfer is done, Modify a change and `write_block`, and Release is
      `release_block`. */
  datatype Event = Ask(t: nat, key: Key) | Finish(t: nat) | Modify(t: nat, data: Block) | Release(t: nat)

  /** The search from the most recently used end. */
  ghost function Hit(bufs: seq<Buf>, order: seq<nat>, key: Key): (r: int)
    requires Within(bufs, order)
    ensures r == -1 <==> forall b: nat | b in order :: KeyOf(bufs[b]) != key
    ensures r != -1 ==> 0 <= r < |bufs| && r in order && KeyOf(bufs[r]) == key
  {
    if order == [] then -1
    else if KeyOf(bufs[order[0]]) == key then order[0]
    else
      assert order == [order[0]] + order[1..];
      Hit(bufs, order[1..], key)
  }

  /** The search from the other end. */
  ghost function Victim(bufs: seq<Buf>, order: seq<nat>): (r: int)
    requires Within(bufs, order)
    ensures r == -1 <==> forall b: nat | b in order :: bufs[b].refcnt > 0
    ensures r != -1 ==> 0 <= r < |bufs| && LastFree(bufs, order, r)
  {
    if order == [] then -1
    else
      var n := |order| - 1;
      assert order == order[..n] + [order[n]];
      if bufs[order[n]].refcnt == 0 then order[n] else Victim(bufs, order[..n])
  }

  lemma OneLastFree(bufs: seq<Buf>, order: seq<nat>, a: nat, b: nat)
    requires Within(bufs, order) && LastFree(bufs, order, a) && LastFree(bufs, order, b)
    ensures a == b
  {
  }

  /** The list with b moved to the front. */
  ghost function Front(order: seq<nat>, b: nat): seq<nat> { [b] + Without(order, b) }

  ghost function Without(order: seq<nat>, b: nat): (r: seq<nat>)
    ensures forall c :: c in r <==> c in order && c != b
  {
    if order == [] then []
    else
      assert order == [order[0]] + order[1..];
      if order[0] == b then Without(order[1..], b) else [order[0]] + Without(order[1..], b)
  }

  ghost predicate Shape(s: Cache) {
    Within(s.bufs, s.order) && forall b: nat | b < |s.bufs| :: b in s.order
  }

  ghost predicate CanDo(s: Cache, e: Event) {
    && Shape(s) && e.t < |s.calls|
    && var c := s.calls[e.t];
       && (c != Idle ==> c.buf < |s.bufs|)
       && match e {
            case Ask(_, key) => c == Idle && key.0 != 0 && key in s.disk
                                && (Hit(s.bufs, s.order, key) != -1 || Victim(s.bufs, s.order) != -1)
            case Finish(_) => c.Flushing? || (c.Reading? && c.key in s.disk)
            case Modify(_, _) => c.Holds?
            case Release(_) => c.Holds? && s.bufs[c.buf].refcnt > 0
          }
  }

  /** The end of `get_block`: the victim is given to the new block and loaded. Its
      dirty flag stays. */
  ghost function Refill(s: Cache, t: nat, b: nat, key: Key): Cache
    requires t < |s.calls| && b < |s.bufs|
  {
    s.(bufs := s.bufs[b := s.bufs[b].(dev := key.0, block_id := key.1, valid := false, refcnt := 1)],
       calls := s.calls[t := Reading(b, key)])
  }

  ghost function Do(s: Cache, e: Event): Cache {
    if !CanDo(s, e) then s else
    var c := s.calls[e.t];
    match e
    case Ask(t, key) =>
      var h := Hit(s.bufs, s.order, key);
      if h != -1 then
        s.(bufs := s.bufs[h := s.bufs[h].(refcnt := s.bufs[h].refcnt + 1)],
           calls := s.calls[t := if s.bufs[h].valid then Holds(h, key) else Reading(h, key)])
      else
        var v := Victim(s.bufs, s.order);
        if s.bufs[v].dirty then s.(calls := s.calls[t := Flushing(v, KeyOf(s.bufs[v]), key)])
        else Refill(s, t, v, key)
    case Finish(t) =>
      if c.Flushing? then Refill(s.(disk := s.disk[c.from := s.bufs[c.buf].data]), t, c.buf, c.key)
      else s.(bufs := s.bufs[c.buf := s.bufs[c.buf].(data := s.disk[c.key], valid := true)],
              calls := s.calls[t := Holds(c.buf, c.key)])
    case Modify(t, data) =>
      s.(bufs := s.bufs[c.buf := s.bufs[c.buf].(data := data, dirty := true)], view := s.view[c.key := data])
    case Release(t) =>
      var n := s.bufs[c.buf].refcnt - 1;
      s.(bufs := s.bufs[c.buf := s.bufs[c.buf].(refcnt := n)],
         order := if n == 0 then Front(s.order, c.buf) else s.order, calls := s.calls[t := Idle])
  }

  /** Some call is writing buffer b back. */
  ghost predicate BeingFlushed(s: Cache, b: nat) {
    exists t: nat :: t < |s.calls| && s.calls[t].Flushing? && s.calls[t].buf == b
  }

  /** A block that is cached is loaded and not on its way out; for one that is not,
      no victim is being written back. */
  ghost predicate Guarded(s: Cache, e: Event)
    requires CanDo(s, e)
  {
    e.Ask? ==>
      var h := Hit(s.bufs, s.order, e.key);
      if h != -1 then s.bufs[h].valid && !BeingFlushed(s, h)
      else forall t: nat | t < |s.calls| :: !s.calls[t].Flushing?
  }

  ghost predicate AllGuarded(s: Cache, events: seq<Event>)
    decreases |events|
  {
    events == [] || (CanDo(s, events[0]) && Guarded(s, events[0]) && AllGuarded(Do(s, events[0]), events[1..]))
  }

  ghost function After(s: Cache, events: seq<Event>): Cache
    decreases |events|
  {
    if events == [] then s else After(Do(s, events[0]), events[1..])
  }

  /** A buffer worked on has the block asked for, as it was last written. */
  ghost predicate SoundCall(s: Cache, t: nat)
    requires t < |s.calls|
  {
    var c := s.calls[t];
    c.Holds? ==> && c.buf < |s.bufs| && KeyOf(s.bufs[c.buf]) == c.key && s.bufs[c.buf].valid
                 && c.key in s.view && s.bufs[c.buf].data == s.view[c.key]
  }

  ghost predicate Sound(s: Cache) { forall t: nat | t < |s.calls| :: SoundCall(s, t) }

  /* ---- the invariant of guarded runs ---- */

  ghost function Uses(c: Call, b: nat): nat { if (c.Reading? || c.Holds?) && c.buf == b then 1 else 0 }

  /** The calls that have been given buffer b. */
  ghost function Users(calls: seq<Call>, b: nat): nat {
    if calls == [] then 0 else Uses(calls[0], b) + Users(calls[1..], b)
  }

  lemma {:induction false} UsersAfter(calls: seq<Call>, t: nat, c: Call, b: nat)
    requires t < |calls|
    ensures Users(calls[t := c], b) + Uses(calls[t], b) == Users(calls, b) + Uses(c, b)
  {
    if t == 0 {
      assert calls[t := c][1..] == calls[1..];
    } else {
      assert calls[t := c][1..] == calls[1..][t - 1 := c];
      UsersAfter(calls[1..], t - 1, c, b);
    }
  }

  ghost predicate CallOk(s: Cache, t: nat)
    requires Shape(s) && t < |s.calls|
  {
    var c := s.calls[t];
    && (c != Idle ==> c.buf < |s.bufs|)
    && (c.Flushing? ==> && LastFree(s.bufs, s.order, c.buf) && s.bufs[c.buf].valid && s.bufs[c.buf].dirty
                        && c.from == KeyOf(s.bufs[c.buf]) && c.key.0 != 0 && c.key in s.disk && !Cached(s.bufs, c.key))
    && (c.Reading? ==> && !s.bufs[c.buf].valid && KeyOf(s.bufs[c.buf]) == c.key && c.key.0 != 0 && c.key in s.disk)
    && (c.Holds? ==> s.bufs[c.buf].valid && KeyOf(s.bufs[c.buf]) == c.key)
  }

  /** One victim is written back at a time, and a buffer is loaded once. */
  ghost predicate Apart(s: Cache, t: nat, u: nat)
    requires t < |s.calls| && u < |s.calls|
  {
    var c, d := s.calls[t], s.calls[u];
    (c.Flushing? && d.Flushing?) || (c.Reading? && d.Reading? && c.buf == d.buf) ==> t == u
  }

  /** A buffer without contents is unused or being loaded. */
  predicate Filled(b: Buf) { b.valid || (b.dev == 0 && !b.dirty) || b.refcnt > 0 }

  ghost predicate BufOk(s: Cache, b: nat)
    requires b < |s.bufs|
  {
    s.bufs[b].refcnt == Users(s.calls, b) && Filled(s.bufs[b])
  }

  ghost predicate Inv(s: Cache) {
    && Shape(s) && Presents(s.bufs, s.disk, s.view)
    && (forall b: nat | b < |s.bufs| :: BufOk(s, b))
    && (forall t: nat | t < |s.calls| :: CallOk(s, t))
    && (forall t: nat, u: nat | t < |s.calls| && u < |s.calls| :: Apart(s, t, u))
  }

  lemma InvIsSound(s: Cache)
    requires Inv(s)
    ensures Sound(s)
  {
    forall t: nat | t < |s.calls|
      ensures SoundCall(s, t)
    {
      assert CallOk(s, t);
      if s.calls[t].Holds? { assert Loaded(s.bufs, s.view, s.calls[t].buf); }
    }
  }

  /** A call that has been given a buffer is counted in it. */
  lemma UserCounts(s: Cache, t: nat)
    requires Inv(s) && t < |s.calls| && (s.calls[t].Reading? || s.calls[t].Holds?)
    ensures s.calls[t].buf < |s.bufs| && s.bufs[s.calls[t].buf].refcnt > 0
  {
    var b := s.calls[t].buf;
    assert CallOk(s, t) && BufOk(s, b);
    UsersAfter(s.calls, t, Idle, b);
  }

  /* ---- every step keeps it ---- */

  lemma HitFits(s: Cache, key: Key)
    requires Shape(s)
    ensures Hit(s.bufs, s.order, key) == -1 <==> !Cached(s.bufs, key)
  {
  }

  /** A step changes one buffer and one call. */
  ghost predicate Touches(s: Cache, s': Cache, t: nat, b: nat) {
    && t < |s.calls| == |s'.calls| && b < |s.bufs| == |s'.bufs|
    && s'.bufs == s.bufs[b := s'.bufs[b]] && s'.calls == s.calls[t := s'.calls[t]]
  }

  /** Other calls do not notice it. */
  lemma OthersOk(s: Cache, s': Cache, t: nat, b: nat, u: nat)
    requires Inv(s) && Shape(s') && Touches(s, s', t, b) && s'.disk.Keys == s.disk.Keys && u < |s.calls| && u != t
    requires KeyOf(s'.bufs[b]) == KeyOf(s.bufs[b]) || s.bufs[b].refcnt == 0
    requires s.calls[u].Flushing? ==> s.calls[u].buf != b && LastFree(s'.bufs, s'.order, s.calls[u].buf)
                                      && !Cached(s'.bufs, s.calls[u].key)
    requires s.calls[u].Reading? && s.calls[u].buf == b ==> s'.bufs[b].valid == s.bufs[b].valid
    requires s.calls[u].Holds? && s.calls[u].buf == b ==> s'.bufs[b].valid
    ensures CallOk(s', u)
  {
    assert CallOk(s, u);
    if s.calls[u].Reading? || s.calls[u].Holds? { UserCounts(s, u); }
  }

  /** What is left to show of a step is what it does to buffer b and call t. */
  lemma StepFrame(s: Cache, s': Cache, t: nat, b: nat)
    requires Inv(s) && Shape(s') && Touches(s, s', t, b)
    requires Presents(s'.bufs, s'.disk, s'.view)
    requires forall u: nat | u < |s.calls| :: CallOk(s', u)
    requires s'.bufs[b].refcnt + Uses(s.calls[t], b) == s.bufs[b].refcnt + Uses(s'.calls[t], b)
    requires forall c: nat | c != b :: Uses(s.calls[t], c) == Uses(s'.calls[t], c)
    requires Filled(s'.bufs[b])
    requires forall u: nat | u < |s.calls| && u != t :: Apart(s', t, u) && Apart(s', u, t)
    ensures Inv(s')
  {
    forall c: nat | c < |s'.bufs|
      ensures BufOk(s', c)
    {
      assert BufOk(s, c);
      UsersAfter(s.calls, t, s'.calls[t], c);
    }
    forall u: nat, v: nat | u < |s'.calls| && v < |s'.calls|
      ensures Apart(s', u, v)
    {
      assert Apart(s, u, v);
    }
  }

  /** A free buffer that stays free or is not free, and is not the victim, does not
      change the victim. */
  lemma StaysLastFree(bufs: seq<Buf>, order: seq<nat>, v: nat, b: nat, c: Buf)
    requires Within(bufs, order) && LastFree(bufs, order, v) && b < |bufs| && b != v
    requires c.refcnt > 0
    ensures LastFree(bufs[b := c], order, v)
  {
    var k: nat :| k < |order| && order[k] == v && forall j: nat | k < j < |order| :: bufs[order[j]].refcnt > 0;
    assert order[k] == v && forall j: nat | k < j < |order| :: bufs[b := c][order[j]].refcnt > 0;
  }

  lemma HitOk(s: Cache, t: nat, h: nat)
    requires Inv(s) && t < |s.calls| && s.calls[t] == Idle && h < |s.bufs| && s.bufs[h].valid && !BeingFlushed(s, h)
    ensures Inv(s.(bufs := s.bufs[h := s.bufs[h].(refcnt := s.bufs[h].refcnt + 1)],
                   calls := s.calls[t := Holds(h, KeyOf(s.bufs[h]))]))
  {
    var s' := s.(bufs := s.bufs[h := s.bufs[h].(refcnt := s.bufs[h].refcnt + 1)],
                 calls := s.calls[t := Holds(h, KeyOf(s.bufs[h]))]);
    CountKeeps(s.bufs, s.disk, s.view, h, s.bufs[h].refcnt + 1);
    assert BufOk(s, h);
    forall u: nat | u < |s.calls|
      ensures CallOk(s', u)
    {
      if u != t {
        assert CallOk(s, u);
        if s.calls[u].Flushing? { StaysLastFree(s.bufs, s.order, s.calls[u].buf, h, s'.bufs[h]); }
        OthersOk(s, s', t, h, u);
      }
    }
    StepFrame(s, s', t, h);
  }

  /** Nobody is writing a victim back. */
  ghost predicate Quiet(s: Cache) { forall t: nat | t < |s.calls| :: !s.calls[t].Flushing? }

  lemma RefillOk(s: Cache, t: nat, b: nat, key: Key)
    requires Inv(s) && Quiet(s) && t < |s.calls| && s.calls[t] == Idle && b < |s.bufs| && s.bufs[b].refcnt == 0
    requires Flushed(s.bufs, s.disk, b) && key.0 != 0 && key in s.disk && !Cached(s.bufs, key)
    ensures Inv(Refill(s, t, b, key)) && Quiet(Refill(s, t, b, key))
  {
    var s' := Refill(s, t, b, key);
    RecycleKeeps(s.bufs, s.disk, s.view, b, key, s'.bufs[b]);
    forall u: nat | u < |s.calls|
      ensures CallOk(s', u)
    {
      if u != t {
        if s.calls[u].Reading? || s.calls[u].Holds? { UserCounts(s, u); }
        OthersOk(s, s', t, b, u);
      }
    }
    forall u: nat | u < |s.calls| && u != t
      ensures Apart(s', t, u) && Apart(s', u, t)
    {
      if s.calls[u].Reading? { UserCounts(s, u); }
    }
    StepFrame(s, s', t, b);
  }

  lemma FlushStartOk(s: Cache, t: nat, b: nat, key: Key)
    requires Inv(s) && Quiet(s) && t < |s.calls| && s.calls[t] == Idle && LastFree(s.bufs, s.order, b)
    requires s.bufs[b].dirty && key.0 != 0 && key in s.disk && !Cached(s.bufs, key)
    ensures Inv(s.(calls := s.calls[t := Flushing(b, KeyOf(s.bufs[b]), key)]))
  {
    var s' := s.(calls := s.calls[t := Flushing(b, KeyOf(s.bufs[b]), key)]);
    assert BufOk(s, b);
    forall u: nat | u < |s.calls|
      ensures CallOk(s', u)
    {
      assert CallOk(s, u);
    }
    StepFrame(s, s', t, b);
  }

  /** Writing the victim back, before it is given to the new block. */
  lemma FlushDoneOk(s: Cache, t: nat)
    requires Inv(s) && t < |s.calls| && s.calls[t].Flushing?
    ensures CallOk(s, t)
    ensures var c := s.calls[t];
            var s' := s.(disk := s.disk[c.from := s.bufs[c.buf].data], calls := s.calls[t := Idle]);
            Inv(s') && Quiet(s') && Flushed(s.bufs, s'.disk, c.buf) && s'.disk.Keys == s.disk.Keys
  {
    var c := s.calls[t];
    assert CallOk(s, t);
    var s' := s.(disk := s.disk[c.from := s.bufs[c.buf].data], calls := s.calls[t := Idle]);
    FlushKeeps(s.bufs, s.disk, s.view, c.buf);
    assert s'.disk.Keys == s.disk.Keys;
    assert BufOk(s, c.buf);
    forall u: nat | u < |s.calls|
      ensures CallOk(s', u) && !s'.calls[u].Flushing?
    {
      assert CallOk(s, u) && Apart(s, t, u);
    }
    StepFrame(s, s', t, c.buf);
  }

  lemma ReadDoneOk(s: Cache, t: nat)
    requires Inv(s) && CanDo(s, Finish(t)) && s.calls[t].Reading?
    ensures Inv(Do(s, Finish(t)))
  {
    var c, s' := s.calls[t], Do(s, Finish(t));
    assert CallOk(s, t);
    FillKeeps(s.bufs, s.disk, s.view, c.buf);
    UserCounts(s, t);
    ChangedOk(s, s', t, c.buf);
  }

  /** A step that keeps the key and the count of a held buffer. */
  lemma ChangedOk(s: Cache, s': Cache, t: nat, b: nat)
    requires Inv(s) && Touches(s, s', t, b) && s'.order == s.order && s'.disk.Keys == s.disk.Keys
    requires Presents(s'.bufs, s'.disk, s'.view)
    requires KeyOf(s'.bufs[b]) == KeyOf(s.bufs[b]) && s'.bufs[b].refcnt == s.bufs[b].refcnt > 0 && s'.bufs[b].valid
    requires s'.calls[t] == Holds(b, KeyOf(s.bufs[b])) && s.calls[t] in {Reading(b, KeyOf(s.bufs[b])), s'.calls[t]}
    ensures Inv(s')
  {
    forall u: nat | u < |s.calls|
      ensures CallOk(s', u)
    {
      assert CallOk(s, u) && CallOk(s, t) && Apart(s, t, u);
      if u != t {
        if s.calls[u].Flushing? { StaysLastFree(s.bufs, s.order, s.calls[u].buf, b, s'.bufs[b]); }
        OthersOk(s, s', t, b, u);
      }
    }
    StepFrame(s, s', t, b);
  }

  lemma ModifyOk(s: Cache, t: nat, data: Block)
    requires Inv(s) && CanDo(s, Modify(t, data))
    ensures Inv(Do(s, Modify(t, data)))
  {
    var c, s' := s.calls[t], Do(s, Modify(t, data));
    assert CallOk(s, t);
    ModifyKeeps(s.bufs, s.disk, s.view, c.buf, data);
    assert s'.view.Keys == s.view.Keys && s'.calls == s.calls[t := c];
    UserCounts(s, t);
    ChangedOk(s, s', t, c.buf);
  }

  /** Taking b out of the list leaves all behind v held. */
  lemma {:induction false} WithoutHeld(bufs: seq<Buf>, order: seq<nat>, b: nat, k: nat) returns (i: nat)
    requires Within(bufs, order) && k < |order| && order[k] != b
    requires forall j: nat | k < j < |order| :: bufs[order[j]].refcnt > 0
    ensures var w := Without(order, b);
            && Within(bufs, w) && i < |w| && w[i] == order[k]
            && forall j: nat | i < j < |w| :: bufs[w[j]].refcnt > 0
  {
    var w, rest := Without(order, b), Without(order[1..], b);
    forall j: nat | j < |w|
      ensures w[j] < |bufs|
    {
      assert w[j] in w;
    }
    if k == 0 {
      i := 0;
      forall j: nat | 0 < j < |w|
        ensures bufs[w[j]].refcnt > 0
      {
        assert w[j] == rest[j - 1] && rest[j - 1] in order[1..];
      }
    } else {
      var j := WithoutHeld(bufs, order[1..], b, k - 1);
      i := if order[0] == b then j else j + 1;
    }
  }

  /** Moving a buffer to the front as it becomes free keeps the victim. */
  lemma FrontKeepsLast(bufs: seq<Buf>, order: seq<nat>, v: nat, b: nat, c: Buf)
    requires Within(bufs, order) && LastFree(bufs, order, v) && b < |bufs| && b != v
    ensures Within(bufs[b := c], Front(order, b)) && LastFree(bufs[b := c], Front(order, b), v)
  {
    var k: nat :| k < |order| && order[k] == v && forall j: nat | k < j < |order| :: bufs[order[j]].refcnt > 0;
    var i := WithoutHeld(bufs, order, b, k);
    var w, o, bufs' := Without(order, b), Front(order, b), bufs[b := c];
    forall j: nat | j < |o|
      ensures o[j] < |bufs| && (j > i + 1 ==> bufs'[o[j]].refcnt > 0)
    {
      if j > 0 { assert o[j] == w[j - 1] && w[j - 1] in w; }
    }
    assert o[i + 1] == v;
  }

  lemma ReleaseOk(s: Cache, t: nat)
    requires Inv(s) && CanDo(s, Release(t))
    ensures Inv(Do(s, Release(t)))
  {
    var c, s' := s.calls[t], Do(s, Release(t));
    var b := c.buf;
    assert CallOk(s, t) && BufOk(s, b);
    CountKeeps(s.bufs, s.disk, s.view, b, s.bufs[b].refcnt - 1);
    assert Shape(s') by { FrontFits(s.bufs, s.order, b, s'.bufs[b]); }
    forall u: nat | u < |s.calls|
      ensures CallOk(s', u)
    {
      assert CallOk(s, u);
      if u != t {
        if s.calls[u].Flushing? {
          if s'.bufs[b].refcnt > 0 {
            StaysLastFree(s.bufs, s.order, s.calls[u].buf, b, s'.bufs[b]);
          } else {
            FrontKeepsLast(s.bufs, s.order, s.calls[u].buf, b, s'.bufs[b]);
          }
        }
        OthersOk(s, s', t, b, u);
      }
    }
    StepFrame(s, s', t, b);
  }

  lemma FrontFits(bufs: seq<Buf>, order: seq<nat>, b: nat, c: Buf)
    requires Within(bufs, order) && b < |bufs| && forall d: nat | d < |bufs| :: d in order
    ensures Within(bufs[b := c], Front(order, b)) && forall d: nat | d < |bufs| :: d in Front(order, b)
  {
    var w := Without(order, b);
    forall j: nat | j < |w|
      ensures w[j] < |bufs|
    {
      assert w[j] in w;
    }
  }

  lemma AskOk(s: Cache, t: nat, key: Key)
    requires Inv(s) && CanDo(s, Ask(t, key)) && Guarded(s, Ask(t, key))
    ensures Inv(Do(s, Ask(t, key)))
  {
    HitFits(s, key);
    var h, v := Hit(s.bufs, s.order, key), Victim(s.bufs, s.order);
    if h != -1 {
      HitOk(s, t, h);
    } else if s.bufs[v].dirty {
      FlushStartOk(s, t, v, key);
    } else {
      RefillOk(s, t, v, key);
    }
  }

  lemma FinishOk(s: Cache, t: nat)
    requires Inv(s) && CanDo(s, Finish(t))
    ensures Inv(Do(s, Finish(t)))
  {
    var c := s.calls[t];
    if c.Flushing? {
      FlushDoneOk(s, t);
      var s' := s.(disk := s.disk[c.from := s.bufs[c.buf].data], calls := s.calls[t := Idle]);
      RefillOk(s', t, c.buf, c.key);
      assert Refill(s', t, c.buf, c.key) == Do(s, Finish(t));
    } else {
      ReadDoneOk(s, t);
    }
  }

  /** Every guarded step keeps the invariant. */
  lemma StepOk(s: Cache, e: Event)
    requires Inv(s) && CanDo(s, e) && Guarded(s, e)
    ensures Inv(Do(s, e))
  {
    match e {
      case Ask(t, key) => AskOk(s, t, key);
      case Finish(t) => FinishOk(s, t);
      case Modify(t, data) => ModifyOk(s, t, data);
      case Release(t) => ReleaseOk(s, t);
    }
  }

  /** Over every guarded run the cache presents what was written, and whoever works
      on a buffer has the block asked for. */
  lemma {:induction false} EveryRunIsSound(s: Cache, events: seq<Event>)
    requires Inv(s) && AllGuarded(s, events)
    ensures Inv(After(s, events)) && Sound(After(s, events))
    decreases |events|
  {
    if events == [] {
      InvIsSound(s);
    } else {
      hide Inv, Sound, Guarded, Do, CanDo;
      StepOk(s, events[0]);
      EveryRunIsSound(Do(s, events[0]), events[1..]);
    }
  }

  /* ---- the converse ---- */

  /** A miss while a victim is being written back takes the same victim. */
  lemma SameVictim(s: Cache, t: nat, key: Key)
    requires Inv(s) && t < |s.calls| && s.calls[t].Flushing?
    ensures Victim(s.bufs, s.order) == s.calls[t].buf
  {
    assert CallOk(s, t);
    var b, v := s.calls[t].buf, Victim(s.bufs, s.order);
    assert b in s.order;
    OneLastFree(s.bufs, s.order, b, v);
  }

  lemma {:induction false} SomeUser(calls: seq<Call>, b: nat) returns (t: nat)
    requires Users(calls, b) > 0
    ensures t < |calls| && Uses(calls[t], b) == 1
  {
    if Uses(calls[0], b) == 1 {
      t := 0;
    } else {
      var u := SomeUser(calls[1..], b);
      t := u + 1;
    }
  }

  /** The block is on its way in. */
  lemma BeingRead(s: Cache, b: nat) returns (u: nat)
    requires Inv(s) && b < |s.bufs| && !s.bufs[b].valid && s.bufs[b].dev != 0
    ensures u < |s.calls| && s.calls[u] == Reading(b, KeyOf(s.bufs[b]))
  {
    assert BufOk(s, b);
    u := SomeUser(s.calls, b);
    assert CallOk(s, u);
  }

  lemma OneMore(s: Cache, e: Event, rest: seq<Event>)
    requires CanDo(s, e) && Guarded(s, e) && AllGuarded(Do(s, e), rest)
    ensures AllGuarded(s, [e] + rest) && After(s, [e] + rest) == After(Do(s, e), rest)
  {
    assert ([e] + rest)[1..] == rest;
  }

  lemma LastStep(s: Cache, e: Event)
    requires CanDo(s, e) && !e.Ask?
    ensures AllGuarded(s, [e]) && After(s, [e]) == Do(s, e)
  {
    assert [e] + [] == [e];
    OneMore(s, e, []);
  }

  /** Three steps without a question. */
  lemma ThreeSteps(s: Cache, e: Event, f: Event, g: Event)
    requires !e.Ask? && !f.Ask? && !g.Ask?
    requires CanDo(s, e) && CanDo(Do(s, e), f) && CanDo(Do(Do(s, e), f), g)
    ensures AllGuarded(s, [e, f, g]) && After(s, [e, f, g]) == Do(Do(Do(s, e), f), g)
  {
    hide Do, CanDo, AllGuarded, After;
    assert [e] + [f, g] == [e, f, g] && [f] + [g] == [f, g];
    LastStep(Do(Do(s, e), f), g);
    OneMore(Do(s, e), f, [g]);
    OneMore(s, e, [f, g]);
  }

  lemma SameShape(s: Cache, s': Cache)
    requires Shape(s) && s'.order == s.order && |s'.bufs| == |s.bufs|
    ensures Shape(s')
  {
  }

  lemma FlushEnds(s: Cache, u: nat)
    requires Shape(s) && u < |s.calls| && s.calls[u].Flushing? && s.calls[u].buf < |s.bufs|
    ensures CanDo(s, Finish(u)) && Shape(Do(s, Finish(u)))
    ensures var c := s.calls[u];
            Do(s, Finish(u)) == Refill(s.(disk := s.disk[c.from := s.bufs[c.buf].data]), u, c.buf, c.key)
  {
    SameShape(s, Do(s, Finish(u)));
  }

  lemma ReadEnds(s: Cache, u: nat)
    requires Shape(s) && u < |s.calls| && s.calls[u].Reading? && s.calls[u].buf < |s.bufs| && s.calls[u].key in s.disk
    ensures CanDo(s, Finish(u)) && Shape(Do(s, Finish(u)))
    ensures var c := s.calls[u];
            Do(s, Finish(u)) == s.(bufs := s.bufs[c.buf := s.bufs[c.buf].(data := s.disk[c.key], valid := true)],
                                   calls := s.calls[u := Holds(c.buf, c.key)])
  {
    SameShape(s, Do(s, Finish(u)));
  }

  lemma Modifies(s: Cache, u: nat, data: Block)
    requires Shape(s) && u < |s.calls| && s.calls[u].Holds? && s.calls[u].buf < |s.bufs|
    ensures CanDo(s, Modify(u, data)) && Shape(Do(s, Modify(u, data)))
    ensures var c := s.calls[u];
            Do(s, Modify(u, data)) == s.(bufs := s.bufs[c.buf := s.bufs[c.buf].(data := data, dirty := true)],
                                         view := s.view[c.key := data])
  {
    SameShape(s, Do(s, Modify(u, data)));
  }

  /** A question about a cached block. */
  lemma Hits(s: Cache, t: nat, key: Key)
    requires Inv(s) && CanDo(s, Ask(t, key)) && Hit(s.bufs, s.order, key) != -1
    ensures var h, s' := Hit(s.bufs, s.order, key), Do(s, Ask(t, key));
            && KeyOf(s.bufs[h]) == key && Shape(s') && s' == s.(bufs := s'.bufs, calls := s'.calls)
            && s'.bufs == s.bufs[h := s.bufs[h].(refcnt := s.bufs[h].refcnt + 1)]
            && s'.calls == s.calls[t := if s.bufs[h].valid then Holds(h, key) else Reading(h, key)]
  {
    SameShape(s, Do(s, Ask(t, key)));
  }

  /** A question about a block that is not cached, while u writes its victim back. */
  lemma Misses(s: Cache, t: nat, u: nat, key: Key)
    requires Inv(s) && CanDo(s, Ask(t, key)) && u < |s.calls| && s.calls[u].Flushing?
    requires Hit(s.bufs, s.order, key) == -1
    ensures var c := s.calls[u];
            Do(s, Ask(t, key)) == s.(calls := s.calls[t := Flushing(c.buf, c.from, key)]) && c.key in s.disk
  {
    SameVictim(s, u, key);
    assert CallOk(s, u);
    hide Inv, LastFree, Presents;
    var v := Victim(s.bufs, s.order);
    assert s.bufs[v].dirty && KeyOf(s.bufs[v]) == s.calls[u].from;
    assert Do(s, Ask(t, key)) == s.(calls := s.calls[t := Flushing(v, KeyOf(s.bufs[v]), key)]);
  }

  /** A second call hits the victim while it is written back: it ends up without
      its block. */
  lemma HitsVictim(s: Cache, t: nat, u: nat, key: Key)
    requires Inv(s) && CanDo(s, Ask(t, key)) && u < |s.calls| && s.calls[u].Flushing?
    requires Hit(s.bufs, s.order, key) == s.calls[u].buf
    ensures var s1 := Do(s, Ask(t, key));
            AllGuarded(s1, [Finish(u)]) && !Sound(After(s1, [Finish(u)]))
  {
    hide Do, Hit, Shape, Presents, After, AllGuarded;
    assert CallOk(s, u);
    Hits(s, t, key);
    var s1 := Do(s, Ask(t, key));
    FlushEnds(s1, u);
    LastStep(s1, Finish(u));
    assert !SoundCall(Do(s1, Finish(u)), t);
  }

  lemma Different(b: Block) returns (c: Block)
    ensures c != b
  {
    var x: Byte := if b[0] == 0 then 1 else 0;
    c := b[0 := x];
    assert c[0] != b[0];
  }

  /** A second call hits a block being loaded: what the first one then writes is
      lost when the second transfer ends. */
  lemma HitsReading(s: Cache, t: nat, u: nat, key: Key) returns (events: seq<Event>)
    requires Inv(s) && CanDo(s, Ask(t, key)) && u < |s.calls|
    requires Hit(s.bufs, s.order, key) != -1 && s.calls[u] == Reading(Hit(s.bufs, s.order, key), key)
    ensures AllGuarded(Do(s, Ask(t, key)), events) && !Sound(After(Do(s, Ask(t, key)), events))
  {
    hide Do, Hit, Shape, Presents, After, AllGuarded;
    assert CallOk(s, u);
    Hits(s, t, key);
    var data := Different(s.disk[key]);
    var s1 := Do(s, Ask(t, key));
    ReadEnds(s1, u);
    var s2 := Do(s1, Finish(u));
    Modifies(s2, u, data);
    var s3 := Do(s2, Modify(u, data));
    ReadEnds(s3, t);
    assert !SoundCall(Do(s3, Finish(t)), u);
    events := [Finish(u), Modify(u, data), Finish(t)];
    ThreeSteps(s1, Finish(u), Modify(u, data), Finish(t));
  }

  /** A second call misses while a victim is written back and takes the same one:
      the first loses it while it works on it. */
  lemma MissesToo(s: Cache, t: nat, u: nat, key: Key)
    requires Inv(s) && CanDo(s, Ask(t, key)) && u < |s.calls| && s.calls[u].Flushing?
    requires Hit(s.bufs, s.order, key) == -1
    ensures var s1, events := Do(s, Ask(t, key)), [Finish(u), Finish(u), Finish(t)];
            AllGuarded(s1, events) && !Sound(After(s1, events))
  {
    hide Do, Hit, Shape, Presents, After, AllGuarded, Victim, LastFree;
    assert CallOk(s, u);
    Misses(s, t, u, key);
    var s1 := Do(s, Ask(t, key));
    SameShape(s, s1);
    FlushEnds(s1, u);
    var s2 := Do(s1, Finish(u));
    ReadEnds(s2, u);
    var s3 := Do(s2, Finish(u));
    FlushEnds(s3, t);
    assert !SoundCall(Do(s3, Finish(t)), u);
    ThreeSteps(s1, Finish(u), Finish(u), Finish(t));
  }

  lemma UnguardedIsUnsound(s: Cache, t: nat, key: Key) returns (events: seq<Event>)
    requires Inv(s) && CanDo(s, Ask(t, key)) && !Guarded(s, Ask(t, key))
    ensures AllGuarded(Do(s, Ask(t, key)), events) && !Sound(After(Do(s, Ask(t, key)), events))
  {
    hide Do, AllGuarded, After, Sound, Presents;
    var h := Hit(s.bufs, s.order, key);
    if h == -1 {
      var u: nat :| u < |s.calls| && s.calls[u].Flushing?;
      MissesToo(s, t, u, key);
      events := [Finish(u), Finish(u), Finish(t)];
    } else if s.bufs[h].valid {
      var u: nat :| u < |s.calls| && s.calls[u].Flushing? && s.calls[u].buf == h;
      HitsVictim(s, t, u, key);
      events := [Finish(u)];
    } else {
      var u := BeingRead(s, h);
      events := HitsReading(s, t, u, key);
    }
  }

  /** A call of `read_block` is harmless in every guarded continuation exactly when
      its block is loaded and not on its way out, or, for a miss, no victim is being
      written back. */
  lemma AskIsExact(s: Cache, t: nat, key: Key)
    requires Inv(s) && CanDo(s, Ask(t, key))
    ensures Guarded(s, Ask(t, key))
       <==> forall events | AllGuarded(Do(s, Ask(t, key)), events) :: Sound(After(Do(s, Ask(t, key)), events))
  {
    hide Do, AllGuarded, After, Sound, Inv, Guarded, CanDo;
    var s' := Do(s, Ask(t, key));
    if Guarded(s, Ask(t, key)) {
      StepOk(s, Ask(t, key));
      forall events | AllGuarded(s', events)
        ensures Sound(After(s', events))
      {
        EveryRunIsSound(s', events);
      }
    } else {
      var events := UnguardedIsUnsound(s, t, key);
    }
  }

  /** The transfers of a guarded call end with the block as it was last written: none
      after a hit, one after a miss, one more when the victim was dirty. */
  lemma AskCompletes(s: Cache, t: nat, key: Key) returns (ends: seq<Event>)
    requires Inv(s) && CanDo(s, Ask(t, key)) && Guarded(s, Ask(t, key))
    ensures AllGuarded(Do(s, Ask(t, key)), ends) && forall e | e in ends :: e == Finish(t)
    ensures var h, v := Hit(s.bufs, s.order, key), Victim(s.bufs, s.order);
            |ends| == if h != -1 then 0 else if s.bufs[v].dirty then 2 else 1
    ensures var s' := After(Do(s, Ask(t, key)), ends);
            && t < |s'.calls| && s'.calls[t].Holds? && s'.calls[t].key == key && s'.view == s.view
            && var b := s'.calls[t].buf;
               b < |s'.bufs| && KeyOf(s'.bufs[b]) == key && key in s.view && s'.bufs[b].data == s.view[key]
  {
    var s1, h, v := Do(s, Ask(t, key)), Hit(s.bufs, s.order, key), Victim(s.bufs, s.order);
    Asked(s, t, key);
    hide Do, Hit, Victim, Inv, Shape, After, AllGuarded, Guarded, Sound, CanDo;
    if h != -1 {
      ends := [];
      Nothing(s1);
    } else if s.bufs[v].dirty {
      FlushEnds(s1, t);
      var s2 := Do(s1, Finish(t));
      ReadEnds(s2, t);
      ends := [Finish(t), Finish(t)];
      assert [Finish(t)] + [Finish(t)] == ends;
      LastStep(s2, Finish(t));
      OneMore(s1, Finish(t), [Finish(t)]);
    } else {
      ReadEnds(s1, t);
      ends := [Finish(t)];
      LastStep(s1, Finish(t));
    }
    EveryRunIsSound(s1, ends);
    SoundAt(After(s1, ends), t);
  }

  lemma Asked(s: Cache, t: nat, key: Key)
    requires Inv(s) && CanDo(s, Ask(t, key)) && Guarded(s, Ask(t, key))
    ensures var h, v, s' := Hit(s.bufs, s.order, key), Victim(s.bufs, s.order), Do(s, Ask(t, key));
            && Inv(s') && Shape(s') && s'.view == s.view && s'.disk == s.disk && key in s.disk && t < |s'.calls|
            && (h == -1 ==> 0 <= v < |s.bufs|)
            && var c := s'.calls[t];
               && c != Idle && c.buf < |s'.bufs| && c.key == key
               && if h != -1 then c.Holds? else if s.bufs[v].dirty then c.Flushing? else c.Reading?
  {
    StepOk(s, Ask(t, key));
    assert CallOk(Do(s, Ask(t, key)), t);
    hide Presents, Inv, Hit, Victim, LastFree;
  }

  lemma Nothing(s: Cache)
    ensures AllGuarded(s, []) && After(s, []) == s
  {
  }

  lemma SoundAt(s: Cache, t: nat)
    requires Sound(s) && t < |s.calls|
    ensures SoundCall(s, t)
  {
  }

  /** Where a miss during a write-back ends: both calls work on the buffer, which has
      the block of the one that finished last and counts one of them. */
  lemma TwoHoldOne(s: Cache, t: nat, u: nat, key: Key)
    requires Inv(s) && CanDo(s, Ask(t, key)) && u < |s.calls| && s.calls[u].Flushing?
    requires Hit(s.bufs, s.order, key) == -1
    ensures var s' := After(Do(s, Ask(t, key)), [Finish(u), Finish(u), Finish(t), Finish(t)]);
            var c := s.calls[u];
            && s'.calls == s.calls[u := Holds(c.buf, c.key)][t := Holds(c.buf, key)]
            && c.buf < |s'.bufs| && KeyOf(s'.bufs[c.buf]) == key && s'.bufs[c.buf].refcnt == 1
            && s'.bufs[c.buf].data == s.disk[key]
  {
    hide Do, Hit, Shape, Presents, AllGuarded, Victim, LastFree, After;
    assert CallOk(s, u);
    Misses(s, t, u, key);
    HitFits(s, key);
    assert key != s.calls[u].from;
    var s1 := Do(s, Ask(t, key));
    SameShape(s, s1);
    FlushEnds(s1, u);
    var s2 := Do(s1, Finish(u));
    ReadEnds(s2, u);
    var s3 := Do(s2, Finish(u));
    FlushEnds(s3, t);
    var s4 := Do(s3, Finish(t));
    ReadEnds(s4, t);
    ThreeSteps(s2, Finish(u), Finish(t), Finish(t));
    assert [Finish(u)] + [Finish(u), Finish(t), Finish(t)] == [Finish(u), Finish(u), Finish(t), Finish(t)];
    OneMore(s1, Finish(u), [Finish(u), Finish(t), Finish(t)]);
  }

  /* ---- such a run from the start ---- */

  /** The cache as `block_cache_init` leaves it. */
  ghost function Start(n: nat, m: nat, disk: Disk): Cache {
    Cache(seq(n, _ => EMPTY), seq(n, i requires 0 <= i < n => n - 1 - i), disk, seq(m, _ => Idle), disk)
  }

  lemma {:induction false} NoUsers(calls: seq<Call>, b: nat)
    requires forall t: nat | t < |calls| :: calls[t] == Idle
    ensures Users(calls, b) == 0
  {
    if calls != [] { NoUsers(calls[1..], b); }
  }

  lemma StartOk(n: nat, m: nat, disk: Disk)
    ensures Inv(Start(n, m, disk))
  {
    var s := Start(n, m, disk);
    forall b: nat | b < n
      ensures b in s.order && BufOk(s, b)
    {
      assert s.order[n - 1 - b] == b;
      NoUsers(s.calls, b);
    }
  }

  /** Between calls, with every buffer free and blocks below j of device 1 seen. */
  ghost predicate Resting(s: Cache, j: nat) {
    && Inv(s) && |s.bufs| > 0
    && (forall t: nat | t < |s.calls| :: s.calls[t] == Idle)
    && (forall b: nat | b < |s.bufs| :: s.bufs[b].refcnt == 0)
    && (forall b: nat | b < |s.bufs| :: s.bufs[b].dev == 1 ==> s.bufs[b].block_id < j)
  }

  ghost function CleanCount(bufs: seq<Buf>): (n: nat)
    ensures n <= |bufs|
  {
    if bufs == [] then 0 else (if bufs[0].dirty then 0 else 1) + CleanCount(bufs[1..])
  }

  lemma {:induction false} OneLess(bufs: seq<Buf>, v: nat, b: Buf)
    requires v < |bufs| && !bufs[v].dirty && b.dirty
    ensures CleanCount(bufs) == CleanCount(bufs[v := b]) + 1
  {
    if v == 0 {
      assert bufs[v := b][1..] == bufs[1..];
    } else {
      assert bufs[v := b][1..] == bufs[1..][v - 1 := b];
      OneLess(bufs[1..], v - 1, b);
    }
  }

  /** One block is loaded, changed and released. */
  function Touch(key: Key, data: Block): seq<Event> { [Ask(0, key), Finish(0), Modify(0, data), Release(0)] }

  lemma FourSteps(s: Cache, e: Event, f: Event, g: Event, h: Event)
    requires !f.Ask? && !g.Ask? && !h.Ask? && CanDo(s, e) && Guarded(s, e)
    requires CanDo(Do(s, e), f) && CanDo(Do(Do(s, e), f), g) && CanDo(Do(Do(Do(s, e), f), g), h)
    ensures AllGuarded(s, [e, f, g, h]) && After(s, [e, f, g, h]) == Do(Do(Do(Do(s, e), f), g), h)
  {
    hide Do, CanDo, AllGuarded, After;
    assert [e] + [f, g, h] == [e, f, g, h];
    ThreeSteps(Do(s, e), f, g, h);
    OneMore(s, e, [f, g, h]);
  }

  lemma RestingMiss(s: Cache, j: nat)
    requires Resting(s, j) && |s.calls| > 0 && (1, j) in s.disk
    ensures var v, e := Victim(s.bufs, s.order), Ask(0, (1, j));
            && 0 <= v < |s.bufs| && Hit(s.bufs, s.order, (1, j)) == -1 && CanDo(s, e) && Guarded(s, e)
            && (!s.bufs[v].dirty ==> Do(s, e) == Refill(s, 0, v, (1, j)))
            && (s.bufs[v].dirty ==> Do(s, e) == s.(calls := s.calls[0 := Flushing(v, KeyOf(s.bufs[v]), (1, j))]))
  {
    HitFits(s, (1, j));
    assert 0 in s.order;
  }

  lemma Releases(s: Cache, u: nat)
    requires Shape(s) && u < |s.calls| && s.calls[u].Holds? && s.calls[u].buf < |s.bufs|
    requires s.bufs[s.calls[u].buf].refcnt == 1
    ensures CanDo(s, Release(u))
    ensures var b := s.calls[u].buf;
            Do(s, Release(u)) == s.(bufs := s.bufs[b := s.bufs[b].(refcnt := 0)], order := Front(s.order, b),
                                    calls := s.calls[u := Idle])
  {
  }

  lemma TouchRuns(s: Cache, j: nat, data: Block)
    requires Resting(s, j) && |s.calls| > 0 && (1, j) in s.disk
    requires var v := Victim(s.bufs, s.order); 0 <= v < |s.bufs| && !s.bufs[v].dirty
    ensures AllGuarded(s, Touch((1, j), data))
    ensures var v, s' := Victim(s.bufs, s.order), After(s, Touch((1, j), data));
            && Resting(s', j + 1) && s'.disk == s.disk && |s'.calls| == |s.calls|
            && s'.bufs == s.bufs[v := Buf(true, true, 0, 1, j, data)]
  {
    var v, key := Victim(s.bufs, s.order), (1, j);
    RestingMiss(s, j);
    var e := Ask(0, key);
    assert Shape(s) && Inv(s) && s.calls[0] == Idle;
    hide Do, Hit, Shape, AllGuarded, Victim, LastFree, After, Guarded, CanDo, Inv, Resting;
    var s1 := Do(s, e);
    SameShape(s, s1);
    ReadEnds(s1, 0);
    var s2 := Do(s1, Finish(0));
    Modifies(s2, 0, data);
    var s3 := Do(s2, Modify(0, data));
    Releases(s3, 0);
    FourSteps(s, e, Finish(0), Modify(0, data), Release(0));
    EveryRunIsSound(s, Touch(key, data));
    RestsAgain(s, Do(s3, Release(0)), j, v, data);
  }

  lemma RestsAgain(s: Cache, s': Cache, j: nat, v: nat, data: Block)
    requires Resting(s, j) && Inv(s') && v < |s.bufs|
    requires s'.bufs == s.bufs[v := Buf(true, true, 0, 1, j, data)] && s'.calls == s.calls
    ensures Resting(s', j + 1)
  {
    hide Inv;
  }

  /** Touching one block after the other makes the next victim a dirty one. */
  lemma {:induction false} DirtyVictim(s: Cache, j: nat, n: nat) returns (events: seq<Event>, i: nat)
    requires Resting(s, j) && |s.calls| > 0 && j + CleanCount(s.bufs) <= n
    requires forall k: nat | k <= n + 1 :: (1, k) in s.disk
    ensures var s' := After(s, events);
            && Resting(s', i) && i <= n && s'.disk == s.disk && |s'.calls| == |s.calls|
            && var v := Victim(s'.bufs, s'.order); 0 <= v < |s'.bufs| && s'.bufs[v].dirty
    decreases CleanCount(s.bufs)
  {
    RestingMiss(s, j);
    hide Inv, Hit, Victim, AllGuarded, Do;
    var v := Victim(s.bufs, s.order);
    if s.bufs[v].dirty {
      events, i := [], j;
    } else {
      var data := s.bufs[v].data;
      TouchRuns(s, j, data);
      var s1 := After(s, Touch((1, j), data));
      OneLess(s.bufs, v, s1.bufs[v]);
      hide After, CleanCount, Resting;
      events, i := DirtyVictim(s1, j + 1, n);
      AfterBoth(s, Touch((1, j), data), events);
      events := Touch((1, j), data) + events;
    }
  }

  lemma {:induction false} AfterBoth(s: Cache, first: seq<Event>, rest: seq<Event>)
    ensures After(s, first + rest) == After(After(s, first), rest)
    decreases |first|
  {
    if first == [] {
      assert first + rest == rest;
    } else {
      assert (first + rest)[0] == first[0] && (first + rest)[1..] == first[1..] + rest;
      AfterBoth(Do(s, first[0]), first[1..], rest);
    }
  }

  /** With a dirty victim on its way, the next block is asked for too. */
  lemma SecondMiss(s: Cache, i: nat)
    requires Resting(s, i) && |s.calls| >= 2 && (1, i) in s.disk && (1, i + 1) in s.disk
    requires var v := Victim(s.bufs, s.order); 0 <= v < |s.bufs| && s.bufs[v].dirty
    ensures var s' := Do(s, Ask(0, (1, i)));
            && Inv(s') && |s'.calls| == |s.calls| && s'.calls[0].Flushing? && CanDo(s', Ask(1, (1, i + 1)))
            && Hit(s'.bufs, s'.order, (1, i + 1)) == -1
  {
    RestingMiss(s, i);
    StepOk(s, Ask(0, (1, i)));
    HitFits(s, (1, i + 1));
    var v := Victim(s.bufs, s.order);
    var s' := s.(calls := s.calls[0 := Flushing(v, KeyOf(s.bufs[v]), (1, i))]);
    assert s'.calls[1] == Idle;
    hide Inv, Do, Guarded, Presents, Hit, Victim;
  }

  lemma TwoAsk(s: Cache, i: nat) returns (events: seq<Event>)
    requires Resting(s, i) && |s.calls| >= 2 && (1, i) in s.disk && (1, i + 1) in s.disk
    requires var v := Victim(s.bufs, s.order); 0 <= v < |s.bufs| && s.bufs[v].dirty
    ensures !Sound(After(s, events))
  {
    hide *;
    var e, f, last := Ask(0, (1, i)), Ask(1, (1, i + 1)), [Finish(0), Finish(0), Finish(1)];
    SecondMiss(s, i);
    MissesToo(Do(s, e), 1, 0, (1, i + 1));
    TwoMore(s, e, f, last);
    events := [e, f] + last;
  }

  /** From the start, with any number of buffers, two callers and two blocks more
      than that on the disk: after each buffer has been written to, both ask for a new
      block, and one of them works on a buffer that is not its own. */
  lemma UnsoundRun(n: nat, m: nat, disk: Disk)
    requires n >= 1 && m >= 2 && forall k: nat | k <= n + 1 :: (1, k) in disk
    ensures exists events :: !Sound(After(Start(n, m, disk), events))
  {
    var s := Start(n, m, disk);
    StartRests(n, m, disk);
    hide *;
    var first, i := DirtyVictim(s, 0, n);
    var more := TwoAsk(After(s, first), i);
    AfterBoth(s, first, more);
  }

  lemma StartRests(n: nat, m: nat, disk: Disk)
    requires n >= 1
    ensures var s := Start(n, m, disk); Resting(s, 0) && CleanCount(s.bufs) <= n && |s.calls| == m && s.disk == disk
  {
    StartOk(n, m, disk);
    hide Inv;
  }

  lemma TwoMore(s: Cache, e: Event, f: Event, rest: seq<Event>)
    ensures After(s, [e, f] + rest) == After(Do(Do(s, e), f), rest)
  {
    assert ([e, f] + rest)[1..] == [f] + rest && ([f] + rest)[1..] == rest;
    hide Do;
  }
}
