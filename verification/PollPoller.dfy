/** The poller over an array of `pollfd` (Reactor/PollPoller.cpp): entries are appended, negated while no
    event is wanted, and removed by moving the last entry into the gap. */
module PollPoller {
  import opened Channel

  /** `fd` is -1-fd while the channel cares about nothing: `poll` skips negative entries. */
  datatype PollFd = PollFd(fd: int, events: Mask, revents: int)

  /** The array, and for each registered channel, by its descriptor, its index. */
  datatype Poll = Poll(pollfds: seq<PollFd>, slots: map<nat, int>)

  const NEW_POLL := Poll([], map[])

  /** The descriptor behind an entry, negated or not. */
  function Key(entry: PollFd): nat {
    if entry.fd < 0 then -1 - entry.fd else entry.fd
  }

  predicate Inv(s: Poll) {
    && (forall fd | fd in s.slots :: 0 <= s.slots[fd] < |s.pollfds| && Key(s.pollfds[s.slots[fd]]) == fd)
    && (forall i | 0 <= i < |s.pollfds| :: Key(s.pollfds[i]) in s.slots && s.slots[Key(s.pollfds[i])] == i)
  }

  function Update(s: Poll, fd: nat, events: Mask): Poll {
    if fd !in s.slots then
      Poll(s.pollfds + [PollFd(fd, events, 0)], s.slots[fd := |s.pollfds|])
    else if 0 <= s.slots[fd] < |s.pollfds| then
      s.(pollfds := s.pollfds[s.slots[fd] := PollFd(if events == NONE_EVENT then -1 - fd else fd, events, 0)])
    else s
  }

  function Remove(s: Poll, fd: nat): Poll {
    var n := |s.pollfds|;
    if fd !in s.slots || !(0 <= s.slots[fd] < n) then s
    else if s.slots[fd] == n - 1 then Poll(s.pollfds[..n - 1], s.slots - {fd})
    else
      var last := s.pollfds[n - 1];
      Poll(s.pollfds[s.slots[fd] := last][..n - 1], (s.slots - {fd})[Key(last) := s.slots[fd]])
  }

  /** `removeChannel` asserts that the entry is negated and empty. */
  predicate Removable(s: Poll, fd: nat) {
    fd in s.slots && 0 <= s.slots[fd] < |s.pollfds|
    && s.pollfds[s.slots[fd]].fd == -1 - fd && s.pollfds[s.slots[fd]].events == NONE_EVENT
  }

  /** What `poll` reports events for. */
  ghost predicate Watches(pollfds: seq<PollFd>, fd: nat, events: Mask) {
    events != NONE_EVENT && exists i | 0 <= i < |pollfds| :: pollfds[i].fd == fd && pollfds[i].events == events
  }

  lemma UpdateKeepsInv(s: Poll, fd: nat, events: Mask)
    requires Inv(s)
    ensures Inv(Update(s, fd, events))
  {
    var t := Update(s, fd, events);
    forall i | 0 <= i < |t.pollfds|
      ensures Key(t.pollfds[i]) in t.slots && t.slots[Key(t.pollfds[i])] == i
    {
      if i < |s.pollfds| {
        assert Key(s.pollfds[i]) in s.slots;
      }
    }
  }

  lemma RemoveKeepsInv(s: Poll, fd: nat)
    requires Inv(s) && fd in s.slots
    ensures Inv(Remove(s, fd))
    ensures Remove(s, fd).slots.Keys == s.slots.Keys - {fd}
  {
    var t := Remove(s, fd);
    var n := |s.pollfds|;
    assert Key(s.pollfds[n - 1]) in s.slots;
    forall i | 0 <= i < |t.pollfds|
      ensures Key(t.pollfds[i]) in t.slots && t.slots[Key(t.pollfds[i])] == i
    {
      assert Key(s.pollfds[i]) in s.slots;
    }
  }

  /** The removal assertion needs a second update: it holds after an update exactly when that update
      found the channel registered and left it without events. */
  lemma RemovableAfterUpdate(s: Poll, fd: nat, events: Mask)
    requires Inv(s)
    ensures Removable(Update(s, fd, events), fd) <==> fd in s.slots && events == NONE_EVENT
  {
  }

  /** An update touches the entry of its descriptor alone, and forgets what was reported of it. */
  lemma UpdateTouchesOne(s: Poll, fd: nat, events: Mask)
    requires Inv(s)
    ensures var t := Update(s, fd, events);
            && fd in t.slots && 0 <= t.slots[fd] < |t.pollfds|
            && t.pollfds[t.slots[fd]].events == events && t.pollfds[t.slots[fd]].revents == 0
            && |t.pollfds| == |s.pollfds| + (if fd in s.slots then 0 else 1)
            && forall i | 0 <= i < |s.pollfds| && i != t.slots[fd] :: t.pollfds[i] == s.pollfds[i]
  {
  }

  lemma SplitEntries(pollfds: seq<PollFd>, i: nat)
    requires i < |pollfds|
    ensures multiset(pollfds) == multiset(pollfds[..i]) + multiset{pollfds[i]} + multiset(pollfds[i + 1..])
  {
    assert pollfds == pollfds[..i] + ([pollfds[i]] + pollfds[i + 1..]);
  }

  lemma ReplaceEntry(pollfds: seq<PollFd>, i: nat, entry: PollFd)
    requires i < |pollfds|
    ensures multiset(pollfds[i := entry]) + multiset{pollfds[i]} == multiset(pollfds) + multiset{entry}
  {
    var replaced := pollfds[i := entry];
    SplitEntries(pollfds, i);
    SplitEntries(replaced, i);
    assert replaced[..i] == pollfds[..i] && replaced[i + 1..] == pollfds[i + 1..];
  }

  /** A removal takes out the entry of its descriptor and keeps all others as they are. */
  lemma RemoveLosesOne(s: Poll, fd: nat)
    requires Inv(s) && fd in s.slots
    ensures multiset(Remove(s, fd).pollfds) + multiset{s.pollfds[s.slots[fd]]} == multiset(s.pollfds)
  {
    var n, i := |s.pollfds|, s.slots[fd];
    var init, last := s.pollfds[..n - 1], s.pollfds[n - 1];
    assert s.pollfds == init + [last];
    if i < n - 1 {
      assert Remove(s, fd).pollfds == init[i := last];
      ReplaceEntry(init, i, last);
    }
  }

  // ------------------------------------------------------------- active channels

  /** The descriptors of the entries with something to report, in the array's order. */
  function Ready(pollfds: seq<PollFd>): seq<nat> {
    if pollfds == [] then []
    else
      var last := pollfds[|pollfds| - 1];
      Ready(pollfds[..|pollfds| - 1]) + (if last.revents > 0 then [Key(last)] else [])
  }

  lemma {:induction false} ReadyMembers(pollfds: seq<PollFd>, fd: nat)
    ensures fd in Ready(pollfds) <==> exists i | 0 <= i < |pollfds| :: pollfds[i].revents > 0 && Key(pollfds[i]) == fd
  {
    if pollfds != [] {
      var init, last := pollfds[..|pollfds| - 1], pollfds[|pollfds| - 1];
      ReadyMembers(init, fd);
      if fd in Ready(init) {
        var i :| 0 <= i < |init| && init[i].revents > 0 && Key(init[i]) == fd;
        assert pollfds[i] == init[i];
      } else if last.revents > 0 && Key(last) == fd {
        assert pollfds[|pollfds| - 1] == last;
      } else {
        forall i | 0 <= i < |pollfds|
          ensures !(pollfds[i].revents > 0 && Key(pollfds[i]) == fd)
        {
          assert i < |init| ==> init[i] == pollfds[i];
        }
      }
    }
  }

  lemma {:induction false} ReadyOfDistinct(pollfds: seq<PollFd>)
    requires forall i, j | 0 <= i < j < |pollfds| :: Key(pollfds[i]) != Key(pollfds[j])
    ensures forall i, j | 0 <= i < j < |Ready(pollfds)| :: Ready(pollfds)[i] != Ready(pollfds)[j]
  {
    if pollfds != [] {
      var init, last := pollfds[..|pollfds| - 1], pollfds[|pollfds| - 1];
      ReadyOfDistinct(init);
      ReadyMembers(init, Key(last));
    }
  }

  /** No channel is reported twice. */
  lemma ReadyIsDistinct(s: Poll)
    requires Inv(s)
    ensures var fds := Ready(s.pollfds); forall i, j | 0 <= i < j < |fds| :: fds[i] != fds[j]
  {
    assert forall i | 0 <= i < |s.pollfds| :: s.slots[Key(s.pollfds[i])] == i;
    ReadyOfDistinct(s.pollfds);
  }

  lemma {:induction false} ReadyPrefix(pollfds: seq<PollFd>, n: nat)
    requires n <= |pollfds|
    ensures Ready(pollfds[..n]) <= Ready(pollfds)
  {
    if n < |pollfds| {
      ReadyPrefix(pollfds[..|pollfds| - 1], n);
      assert pollfds[..|pollfds| - 1][..n] == pollfds[..n];
    } else {
      assert pollfds[..n] == pollfds;
    }
  }

  // ------------------------------------------------------------------- the object

  class PollPoller {
    var pollfds: seq<PollFd>
    var channels: map<nat, Channel>

    ghost predicate Valid()
      reads this, channels.Values`index
    {
      && (forall fd | fd in channels :: channels[fd].fd == fd)
      && Inv(State())
    }

    ghost function State(): Poll
      reads this, channels.Values`index
    {
      Poll(pollfds, map fd | fd in channels :: channels[fd].index)
    }

    /** The program's assertions: a channel without an index is unknown, one with an index is known. */
    ghost predicate Knows(channel: Channel)
      reads this, channel
    {
      if channel.index < 0 then channel.fd !in channels
      else channel.fd in channels && channels[channel.fd] == channel
    }

    constructor ()
      ensures Valid() && State() == NEW_POLL
    {
      pollfds, channels := [], map[];
    }

    method UpdateChannel(channel: Channel)
      requires Valid() && Knows(channel)
      modifies this, channel`index
      ensures Valid() && Knows(channel) && channel.index >= 0
      ensures State() == Update(old(State()), channel.fd, channel.events)
      ensures channels == old(channels)[channel.fd := channel]
    {
      UpdateKeepsInv(State(), channel.fd, channel.events);
      if channel.index < 0 {
        AddEntry(channel);
      } else {
        ChangeEntry(channel);
      }
    }

    method AddEntry(channel: Channel)
      requires Valid() && channel.fd !in channels
      modifies this, channel`index
      ensures State() == Update(old(State()), channel.fd, channel.events)
      ensures channels == old(channels)[channel.fd := channel] && channel.index == |old(pollfds)|
    {
      ghost var before := State();
      pollfds := pollfds + [PollFd(channel.fd, channel.events, 0)];
      channel.index := |pollfds| - 1;
      channels := channels[channel.fd := channel];
      assert State().slots == before.slots[channel.fd := channel.index];
    }

    method ChangeEntry(channel: Channel)
      requires Valid() && channel.fd in channels && channels[channel.fd] == channel
      modifies this`pollfds
      ensures State() == Update(old(State()), channel.fd, channel.events)
      ensures channels == old(channels)[channel.fd := channel] && channel.index >= 0
    {
      var fd: int, idx := channel.fd, channel.index;
      assert channel.fd in State().slots;
      assert 0 <= idx < |pollfds|;
      assert pollfds[idx].fd == fd || pollfds[idx].fd == -1 - fd;
      var entry := PollFd(fd, channel.events, 0);
      if channel.events == NONE_EVENT {
        entry := entry.(fd := -1 - fd);
      }
      pollfds := pollfds[idx := entry];
    }

    /** The removed channel's own index is left as it is, so the poller will not take it back. */
    method RemoveChannel(channel: Channel)
      requires Valid() && Knows(channel) && channel.index >= 0
      requires channel.events == NONE_EVENT && Removable(State(), channel.fd)
      modifies this, channels.Values`index
      ensures Valid() && State() == Remove(old(State()), channel.fd)
      ensures channels == old(channels) - {channel.fd}
      ensures channel.index == old(channel.index) && !Knows(channel)
    {
      RemoveKeepsInv(State(), channel.fd);
      if channel.index == |pollfds| - 1 {
        RemoveLast(channel);
      } else {
        MoveLast(channel);
      }
    }

    method RemoveLast(channel: Channel)
      requires Valid() && channel.fd in channels && channels[channel.fd] == channel
      requires channel.index == |pollfds| - 1
      modifies this
      ensures State() == Remove(old(State()), channel.fd) && channels == old(channels) - {channel.fd}
    {
      ghost var before := State();
      assert channel.fd in before.slots;
      channels := channels - {channel.fd};
      pollfds := pollfds[..|pollfds| - 1];
      assert State().slots == before.slots - {channel.fd};
    }

    /** The last entry goes where the removed one was. */
    method MoveLast(channel: Channel)
      requires Valid() && channel.fd in channels && channels[channel.fd] == channel
      requires channel.index != |pollfds| - 1
      modifies this, channels.Values`index
      ensures State() == Remove(old(State()), channel.fd) && channels == old(channels) - {channel.fd}
      ensures channel.index == old(channel.index)
    {
      ghost var before := State();
      var idx, n := channel.index, |pollfds|;
      assert channel.fd in before.slots;
      assert Key(pollfds[n - 1]) in before.slots;
      var channelAtEnd := pollfds[n - 1].fd;
      pollfds := pollfds[idx := pollfds[n - 1]][n - 1 := pollfds[idx]];
      if channelAtEnd < 0 {
        channelAtEnd := -channelAtEnd - 1;
      }
      channels := channels - {channel.fd};
      channels[channelAtEnd].index := idx;
      pollfds := pollfds[..n - 1];
      assert pollfds == Remove(before, channel.fd).pollfds;
      assert State().slots == (before.slots - {channel.fd})[channelAtEnd := idx];
    }

    /** The channels of the first `n` ready entries know their events. */
    ghost predicate Reported(n: nat)
      requires n <= |pollfds|
      reads this, channels.Values`revents
    {
      forall j | 0 <= j < n && pollfds[j].revents > 0 ::
        Key(pollfds[j]) in channels && channels[Key(pollfds[j])].revents == pollfds[j].revents
    }

    method Report(i: nat) returns (channel: Channel)
      requires Valid() && i < |pollfds| && pollfds[i].fd >= 0 && Reported(i)
      modifies channels.Values`revents
      ensures Valid() && State() == old(State()) && Reported(i + 1)
      ensures Key(pollfds[i]) in channels && channel == channels[Key(pollfds[i])]
    {
      var entry := pollfds[i];
      assert Key(entry) in State().slots;
      channel := channels[entry.fd];
      channel.revents := entry.revents;
      assert forall j | 0 <= j < i :: Key(pollfds[j]) in State().slots && Key(pollfds[j]) != Key(entry);
    }

    /** The first `i` entries have been looked at. */
    ghost predicate Scanned(i: nat, active: seq<Channel>, filled: seq<Channel>)
      requires i <= |pollfds|
      reads this, channels.Values
    {
      Valid() && Reported(i) && Filled(channels, pollfds[..i], active, filled)
    }

    /** One turn of the loop. */
    method Visit(i: nat, ghost active: seq<Channel>, filled: seq<Channel>) returns (more: seq<Channel>)
      requires i < |pollfds| && (pollfds[i].revents > 0 ==> pollfds[i].fd >= 0)
      requires Scanned(i, active, filled)
      modifies channels.Values`revents
      ensures State() == old(State()) && Scanned(i + 1, active, more)
      ensures |Ready(pollfds[..i + 1])| == |Ready(pollfds[..i])| + (if pollfds[i].revents > 0 then 1 else 0)
    {
      more := filled;
      if pollfds[i].revents > 0 {
        var channel := Report(i);
        more := more + [channel];
      }
      assert pollfds[..i + 1] == pollfds[..i] + [pollfds[i]];
      FilledSnoc(channels, pollfds[..i], pollfds[i], active, filled);
    }

    /** The loop: stops as soon as `numEvents` entries have been found. */
    method Scan(numEvents: int, active: seq<Channel>) returns (filled: seq<Channel>, i: nat)
      requires Valid() && 0 <= numEvents <= |Ready(pollfds)|
      requires forall i | 0 <= i < |pollfds| :: pollfds[i].revents > 0 ==> pollfds[i].fd >= 0
      modifies channels.Values`revents
      ensures i <= |pollfds| && Scanned(i, active, filled)
      ensures |Ready(pollfds[..i])| == numEvents || (i == |pollfds| && |Ready(pollfds[..i])| <= numEvents)
    {
      filled, i := active, 0;
      var remaining := numEvents;
      NothingFilled(channels, active);
      assert pollfds[..0] == [];
      while i < |pollfds| && remaining > 0
        invariant i <= |pollfds| && Scanned(i, active, filled)
        invariant |Ready(pollfds[..i])| == numEvents - remaining && remaining >= 0
      {
        var found := pollfds[i].revents > 0;
        filled := Visit(i, active, filled);
        remaining := if found then remaining - 1 else remaining;
        i := i + 1;
      }
    }

    /** With the count `poll` returned the loop finds all of the ready entries. */
    method FillActiveChannels(numEvents: int, active: seq<Channel>) returns (filled: seq<Channel>)
      requires Valid() && 0 <= numEvents <= |Ready(pollfds)|
      requires forall i | 0 <= i < |pollfds| :: pollfds[i].revents > 0 ==> pollfds[i].fd >= 0
      modifies channels.Values`revents
      ensures Valid() && State() == old(State())
      ensures Known(channels, Ready(pollfds)[..numEvents])
      ensures filled == active + ChannelsOf(channels, Ready(pollfds)[..numEvents])
      ensures forall i, j | |active| <= i < j < |filled| :: filled[i] != filled[j]
      ensures numEvents == |Ready(pollfds)| ==> Reported(|pollfds|)
    {
      var i;
      filled, i := Scan(numEvents, active);
      FoundAll(pollfds, i, numEvents);
      ReportedOnce(State(), channels, numEvents, active);
    }
  }

  lemma {:induction false} ChannelAt(channels: map<nat, Channel>, fds: seq<nat>, i: nat)
    requires Known(channels, fds) && i < |fds|
    ensures |ChannelsOf(channels, fds)| == |fds| && ChannelsOf(channels, fds)[i] == channels[fds[i]]
  {
    var init := fds[..|fds| - 1];
    if init == [] {
      assert ChannelsOf(channels, init) == [];
    } else {
      ChannelAt(channels, init, if i < |init| then i else 0);
    }
  }

  lemma ChannelsAreDistinct(channels: map<nat, Channel>, fds: seq<nat>)
    requires Known(channels, fds) && forall fd | fd in channels :: channels[fd].fd == fd
    requires forall i, j | 0 <= i < j < |fds| :: fds[i] != fds[j]
    ensures |ChannelsOf(channels, fds)| == |fds|
    ensures var cs := ChannelsOf(channels, fds); forall i, j | 0 <= i < j < |cs| :: cs[i] != cs[j]
  {
    forall i | 0 <= i < |fds|
      ensures |ChannelsOf(channels, fds)| == |fds| && ChannelsOf(channels, fds)[i] == channels[fds[i]]
    {
      ChannelAt(channels, fds, i);
    }
  }

  lemma ReportedOnce(s: Poll, channels: map<nat, Channel>, n: nat, active: seq<Channel>)
    requires Inv(s) && n <= |Ready(s.pollfds)| && Known(channels, Ready(s.pollfds)[..n])
    requires forall fd | fd in channels :: channels[fd].fd == fd
    ensures var filled := active + ChannelsOf(channels, Ready(s.pollfds)[..n]);
            forall i, j | |active| <= i < j < |filled| :: filled[i] != filled[j]
  {
    ReadyIsDistinct(s);
    ChannelsAreDistinct(channels, Ready(s.pollfds)[..n]);
  }

  ghost predicate Filled(channels: map<nat, Channel>, pollfds: seq<PollFd>,
                         active: seq<Channel>, filled: seq<Channel>)
  {
    Known(channels, Ready(pollfds)) && filled == active + ChannelsOf(channels, Ready(pollfds))
  }

  lemma NothingFilled(channels: map<nat, Channel>, active: seq<Channel>)
    ensures Filled(channels, [], active, active) && |Ready([])| == 0
  {
    assert active + [] == active;
  }

  lemma ReadySnoc(pollfds: seq<PollFd>, entry: PollFd)
    ensures Ready(pollfds + [entry]) == Ready(pollfds) + (if entry.revents > 0 then [Key(entry)] else [])
  {
    assert (pollfds + [entry])[..|pollfds|] == pollfds;
  }

  lemma ChannelsOfSnoc(channels: map<nat, Channel>, fds: seq<nat>, fd: nat)
    requires Known(channels, fds) && fd in channels
    ensures Known(channels, fds + [fd])
    ensures ChannelsOf(channels, fds + [fd]) == ChannelsOf(channels, fds) + [channels[fd]]
  {
    assert (fds + [fd])[..|fds|] == fds;
  }

  lemma FilledSnoc(channels: map<nat, Channel>, pollfds: seq<PollFd>, entry: PollFd,
                   active: seq<Channel>, filled: seq<Channel>)
    requires Filled(channels, pollfds, active, filled)
    requires entry.revents > 0 ==> Key(entry) in channels
    ensures Ready(pollfds + [entry]) == Ready(pollfds) + (if entry.revents > 0 then [Key(entry)] else [])
    ensures Filled(channels, pollfds + [entry], active,
                   if entry.revents > 0 then filled + [channels[Key(entry)]] else filled)
  {
    ReadySnoc(pollfds, entry);
    var fds := Ready(pollfds);
    if entry.revents > 0 {
      ChannelsOfSnoc(channels, fds, Key(entry));
      var found, c := ChannelsOf(channels, fds), channels[Key(entry)];
      assert active + (found + [c]) == filled + [c];
    } else {
      assert fds + [] == fds;
    }
  }

  lemma ReadyBetween(pollfds: seq<PollFd>, i: nat, j: nat)
    requires i <= j <= |pollfds|
    ensures Ready(pollfds[..i]) <= Ready(pollfds[..j])
  {
    ReadyPrefix(pollfds[..j], i);
    assert pollfds[..j][..i] == pollfds[..i];
  }

  lemma NoneLeft(pollfds: seq<PollFd>, i: nat, j: nat)
    requires i <= j < |pollfds| && |Ready(pollfds[..i])| == |Ready(pollfds)|
    ensures pollfds[j].revents <= 0
  {
    ReadyBetween(pollfds, i, j);
    ReadyPrefix(pollfds, j + 1);
    assert pollfds[..j + 1][..j] == pollfds[..j];
  }

  lemma FoundAll(pollfds: seq<PollFd>, i: nat, n: nat)
    requires i <= |pollfds| && n <= |Ready(pollfds)|
    requires |Ready(pollfds[..i])| == n || (i == |pollfds| && |Ready(pollfds[..i])| <= n)
    ensures Ready(pollfds)[..n] == Ready(pollfds[..i])
    ensures n == |Ready(pollfds)| ==> forall j | i <= j < |pollfds| :: pollfds[j].revents <= 0
  {
    assert pollfds[..|pollfds|] == pollfds;
    ReadyPrefix(pollfds, i);
    if n == |Ready(pollfds)| {
      forall j | i <= j < |pollfds|
        ensures pollfds[j].revents <= 0
      {
        NoneLeft(pollfds, i, j);
      }
    }
  }

  predicate Known(channels: map<nat, Channel>, fds: seq<nat>) {
    forall fd | fd in fds :: fd in channels
  }

  function ChannelsOf(channels: map<nat, Channel>, fds: seq<nat>): seq<Channel>
    requires Known(channels, fds)
  {
    if fds == [] then [] else ChannelsOf(channels, fds[..|fds| - 1]) + [channels[fds[|fds| - 1]]]
  }
}
