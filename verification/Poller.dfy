/** Poller: the table of descriptors handed to poll(2), with a map from a descriptor to its channel.

    A slot whose descriptor is switched off holds -fd - 1 instead of fd. */
module Pollers {

  const NONE_EVENT := 0

  class Channel {
    const fd: nat
    /** The slot of the channel, -1 before it has one. */
    var index: int
    var events: int

    constructor (fd: nat)
      ensures this.fd == fd && index == -1 && events == NONE_EVENT
    {
      this.fd := fd;
      index, events := -1, NONE_EVENT;
    }
  }

  datatype PollFd = PollFd(fd: int, events: int, revents: int)

  /** Which descriptor a slot is for, switched off or not. */
  function Decode(fd: int): nat
  {
    if fd < 0 then -fd - 1 else fd
  }

  /** What the table says of a descriptor. */
  datatype Entry = Entry(events: int, on: bool)

  /** What an update makes of an entry: without events the slot is turned over, with events it is left as it is. */
  function Updated(was: Entry, events: int): Entry
  {
    Entry(events, if events == NONE_EVENT then !was.on else was.on)
  }

  /** The slot is on exactly if there is something to wait for. */
  predicate Armed(e: Entry)
  {
    e.on <==> e.events != NONE_EVENT
  }

  /** An update of an entry arms its slot if and only if the slot was not already off. */
  lemma UpdateArms(was: Entry, events: int)
    ensures Armed(Updated(was, events)) <==> was.on
  {
  }

  /** The entry after updates in turn, from a slot that is on. */
  function After(first: int, updates: seq<int>): Entry
  {
    if updates == [] then Entry(first, true)
    else Updated(After(first, updates[..|updates| - 1]), updates[|updates| - 1])
  }

  /** From registration on: the slot is armed after every step if and only if the channel was registered with events
      and no update, but perhaps the last, takes all the events away. */
  lemma {:induction false} ArmedThroughout(first: int, updates: seq<int>)
    ensures (forall k :: 0 <= k <= |updates| ==> Armed(After(first, updates[..k])))
       <==> first != NONE_EVENT && forall i :: 0 <= i < |updates| - 1 ==> updates[i] != NONE_EVENT
    decreases |updates|
  {
    var n := |updates|;
    assert updates[..0] == [] && Armed(After(first, updates[..0])) == (first != NONE_EVENT);
    if n > 0 {
      var shorter := updates[..n - 1];
      ArmedThroughout(first, shorter);
      assert updates[..n] == updates && forall k :: 0 <= k <= n - 1 ==> updates[..k] == shorter[..k];
      UpdateArms(After(first, shorter), updates[n - 1]);
      if n > 1 {
        assert shorter[..n - 1] == shorter;
        assert forall i :: 0 <= i < n - 2 ==> updates[i] == shorter[i];
      }
    }
  }

  /** The slots that poll(2) reports, in order. */
  function Reported(revents: seq<int>, n: nat): (slots: seq<nat>)
    requires n <= |revents|
    ensures forall j :: 0 <= j < |slots| ==> slots[j] < n && revents[slots[j]] > 0
  {
    if n == 0 then []
    else if revents[n - 1] > 0 then Reported(revents, n - 1) + [n - 1]
    else Reported(revents, n - 1)
  }

  /** Every slot with events is reported, each once and in order. */
  lemma {:induction false} ReportedExact(revents: seq<int>, n: nat, i: nat)
    requires i < n <= |revents|
    ensures i in Reported(revents, n) <==> revents[i] > 0
    ensures forall j, k :: 0 <= j < k < |Reported(revents, n)| ==> Reported(revents, n)[j] < Reported(revents, n)[k]
    decreases n
  {
    if n > 1 {
      ReportedExact(revents, n - 1, if i < n - 1 then i else 0);
    }
  }

  lemma {:induction false} ReportedGrows(revents: seq<int>, n: nat, m: nat)
    requires n <= m <= |revents|
    ensures Reported(revents, n) <= Reported(revents, m)
    decreases m
  {
    if n < m {
      ReportedGrows(revents, n, m - 1);
    }
  }

  class Poller {
    var pollfds: seq<PollFd>
    var channels: map<nat, Channel>

    /** Channels and slots correspond one to one, by the channels' indices. */
    ghost predicate Valid()
      reads this, channels.Values
    {
      && (forall fd :: fd in channels ==>
           && channels[fd].fd == fd && 0 <= channels[fd].index < |pollfds|
           && Decode(pollfds[channels[fd].index].fd) == fd)
      && (forall i :: 0 <= i < |pollfds| ==>
           Decode(pollfds[i].fd) in channels && channels[Decode(pollfds[i].fd)].index == i)
    }

    constructor ()
      ensures Valid() && channels == map[] && pollfds == []
    {
      pollfds, channels := [], map[];
    }

    /** The table without the order of its slots. */
    ghost function Table(): map<nat, Entry>
      requires Valid()
      reads this, channels.Values
    {
      map fd | fd in channels :: Entry(pollfds[channels[fd].index].events, pollfds[channels[fd].index].fd >= 0)
    }

    method Register(ch: Channel)
      requires Valid() && ch.fd !in channels
      modifies this, ch`index
      ensures Valid() && channels == old(channels)[ch.fd := ch]
      ensures Table() == old(Table())[ch.fd := Entry(ch.events, true)]
    {
      channels := channels[ch.fd := ch];
      pollfds := pollfds + [PollFd(ch.fd, ch.events, 0)];
      ch.index := |pollfds| - 1;
      assert forall fd :: fd in old(channels) ==>
          channels[fd] == old(channels[fd]) && channels[fd].index == old(channels[fd].index) < |pollfds| - 1;
    }

    method Change(ch: Channel)
      requires Valid() && ch.fd in channels && channels[ch.fd] == ch
      modifies `pollfds
      ensures Valid() && Table() == old(Table())[ch.fd := Updated(old(Table())[ch.fd], ch.events)]
    {
      var index := ch.index;
      var fd := pollfds[index].fd;
      if ch.events == NONE_EVENT {
        fd := -fd - 1;
      }
      pollfds := pollfds[index := PollFd(fd, ch.events, 0)];
    }

    /** Register a new channel, or change the events of one in the table. */
    method UpdateChannel(ch: Channel)
      requires Valid()
      requires ch.fd !in channels ==> ch.index == -1
      requires ch.fd in channels ==> channels[ch.fd] == ch
      modifies this, ch`index
      ensures Valid() && channels == old(channels)[ch.fd := ch]
      ensures Table() == old(Table())[ch.fd := if ch.fd in old(channels) then Updated(old(Table())[ch.fd], ch.events)
                                               else Entry(ch.events, true)]
      ensures Table()[ch.fd].events == ch.events
      ensures Armed(Table()[ch.fd])
         <==> if ch.fd in old(channels) then old(Table())[ch.fd].on else ch.events != NONE_EVENT
    {
      if ch.fd !in channels {
        Register(ch);
      } else {
        Change(ch);
      }
    }

    /** The last slot, switched off or not, takes the place of the channel's; it may be the same slot, switched off. */
    method MoveLast(ch: Channel)
      requires Valid() && ch.fd in channels && channels[ch.fd] == ch && ch.fd != pollfds[|pollfds| - 1].fd
      modifies this, channels.Values
      ensures Valid() && channels == old(channels) - {ch.fd}
      ensures forall fd :: fd in channels ==> pollfds[channels[fd].index] == old(pollfds[channels[fd].index])
    {
      var index := ch.index;
      var back := pollfds[|pollfds| - 1].fd;
      pollfds := pollfds[index := pollfds[|pollfds| - 1]][..|pollfds| - 1];
      if back < 0 {
        back := -back - 1;
      }
      channels[back].index := index;
      channels := channels - {ch.fd};
      forall fd | fd in channels
        ensures 0 <= channels[fd].index < |pollfds| && pollfds[channels[fd].index] == old(pollfds[channels[fd].index])
      {
        assert fd != back ==> old(channels[fd].index) != old(|pollfds|) - 1;
      }
    }

    method SwapRemove(ch: Channel)
      requires Valid() && ch.fd in channels && channels[ch.fd] == ch && ch.fd != pollfds[|pollfds| - 1].fd
      modifies this, channels.Values
      ensures Valid() && channels == old(channels) - {ch.fd} && Table() == old(Table()) - {ch.fd}
    {
      MoveLast(ch);
    }

    /** Take a channel out of the table; the last slot takes its place. The channel keeps its old index. */
    method RemoveChannel(ch: Channel)
      requires Valid()
      requires ch.fd in channels ==> channels[ch.fd] == ch
      modifies this, channels.Values
      ensures Valid() && channels == old(channels) - {ch.fd} && Table() == old(Table()) - {ch.fd}
    {
      if ch.fd in channels {
        if ch.fd == pollfds[|pollfds| - 1].fd {
          pollfds := pollfds[..|pollfds| - 1];
          channels := channels - {ch.fd};
        } else {
          SwapRemove(ch);
        }
      }
    }

    /** The descriptors of the first n slots. */
    ghost function FirstFds(n: nat): set<nat>
      requires n <= |pollfds|
      reads this
    {
      set i | 0 <= i < n :: Decode(pollfds[i].fd)
    }

    lemma {:induction false} FirstFdsSize(n: nat)
      requires Valid() && n <= |pollfds|
      ensures |FirstFds(n)| == n
    {
      if n > 0 {
        FirstFdsSize(n - 1);
        assert FirstFds(n) == FirstFds(n - 1) + {Decode(pollfds[n - 1].fd)};
        assert Decode(pollfds[n - 1].fd) !in FirstFds(n - 1);
      }
    }

    /** As many channels as slots. */
    lemma OneToOne()
      requires Valid()
      ensures |channels.Keys| == |pollfds|
    {
      FirstFdsSize(|pollfds|);
      forall fd | fd in channels
        ensures fd in FirstFds(|pollfds|)
      {
        assert Decode(pollfds[channels[fd].index].fd) == fd;
      }
      assert channels.Keys == FirstFds(|pollfds|);
    }

    /** The channels of the reported slots, in the order of the slots; the scan stops when `ready` are found. What
        poll(2) promises: it reports no slot that is off, and returns the number of those it reports. */
    method CollectActive(revents: seq<int>, ready: nat) returns (active: seq<Channel>)
      requires Valid() && |revents| == |pollfds| && ready == |Reported(revents, |revents|)|
      requires forall i :: 0 <= i < |pollfds| && pollfds[i].fd < 0 ==> revents[i] <= 0
      ensures |active| == ready
      ensures forall j :: 0 <= j < ready ==>
                var slot := Reported(revents, |revents|)[j];
                pollfds[slot].fd in channels && active[j] == channels[pollfds[slot].fd]
    {
      active := [];
      var left: int := ready;
      ghost var all := Reported(revents, |revents|);
      var i := 0;
      while i < |pollfds| && left != 0
        invariant 0 <= i <= |pollfds| && |active| == |Reported(revents, i)| == ready - left
        invariant Reported(revents, i) <= all
        invariant forall j :: 0 <= j < |active| ==>
                    pollfds[all[j]].fd in channels && active[j] == channels[pollfds[all[j]].fd]
      {
        ReportedGrows(revents, i + 1, |revents|);
        if revents[i] > 0 {
          assert Reported(revents, i + 1) == Reported(revents, i) + [i];
          active := active + [channels[pollfds[i].fd]];
          left := left - 1;
        }
        i := i + 1;
      }
    }
  }

  /** Registering with events, taking them all away and asking for them again leaves the channel deaf. */
  method DisableThenEnable(fd: nat, events: int) returns (poller: Poller, ch: Channel)
    requires events != NONE_EVENT
    ensures fresh(poller) && fresh(ch) && poller.Valid() && fd in poller.Table()
    ensures ch.events == events && poller.Table()[fd] == Entry(events, false) && !Armed(poller.Table()[fd])
  {
    poller := new Poller();
    ch := new Channel(fd);
    ch.events := events;
    poller.UpdateChannel(ch);
    ch.events := NONE_EVENT;
    poller.UpdateChannel(ch);
    ch.events := events;
    poller.UpdateChannel(ch);
  }

  /** Registering without events leaves the slot on. */
  method RegisterWithoutEvents(fd: nat) returns (poller: Poller, ch: Channel)
    ensures fresh(poller) && fresh(ch) && poller.Valid() && fd in poller.Table() && !Armed(poller.Table()[fd])
  {
    poller := new Poller();
    ch := new Channel(fd);
    poller.UpdateChannel(ch);
  }
}
