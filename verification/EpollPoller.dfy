/** The poller over the kernel's interest list (Reactor/EpollPoller.cpp). */
module EpollPoller {
  import opened Channel

  const NEW := -1
  const ADDED := 1
  const DELETED := 2

  datatype Operation = Add | Mod | Del

  /** The kernel's list, and the index of each registered channel, by descriptor. */
  datatype Epoll = Epoll(kernel: map<nat, Mask>, index: map<nat, int>)

  const NEW_EPOLL := Epoll(map[], map[])

  predicate Inv(s: Epoll) {
    && (forall fd | fd in s.index :: s.index[fd] == ADDED || s.index[fd] == DELETED)
    && (forall fd | fd in s.index :: s.index[fd] == ADDED <==> fd in s.kernel)
    && s.kernel.Keys <= s.index.Keys
  }

  /** `epoll_ctl` fails with EEXIST or ENOENT otherwise. */
  predicate Accepts(kernel: map<nat, Mask>, op: Operation, fd: nat) {
    if op.Add? then fd !in kernel else fd in kernel
  }

  function Control(kernel: map<nat, Mask>, op: Operation, fd: nat, events: Mask): map<nat, Mask> {
    if !Accepts(kernel, op, fd) then kernel
    else if op.Del? then kernel - {fd}
    else kernel[fd := events]
  }

  function UpdateOperation(s: Epoll, fd: nat, events: Mask): Operation {
    if fd !in s.index || s.index[fd] == DELETED then Add
    else if events == NONE_EVENT then Del
    else Mod
  }

  function Update(s: Epoll, fd: nat, events: Mask): Epoll {
    var op := UpdateOperation(s, fd, events);
    Epoll(Control(s.kernel, op, fd, events), s.index[fd := if op.Del? then DELETED else ADDED])
  }

  function Remove(s: Epoll, fd: nat): Epoll {
    if fd !in s.index then s
    else Epoll(if s.index[fd] == ADDED then Control(s.kernel, Del, fd, NONE_EVENT) else s.kernel,
               s.index - {fd})
  }

  ghost predicate Watches(kernel: map<nat, Mask>, fd: nat, events: Mask) {
    events != NONE_EVENT && fd in kernel && kernel[fd] == events
  }

  /** No ADD on a present descriptor, no MOD or DEL on an absent one, whatever the updates: disabling a
      channel twice merely adds it again with an empty mask. */
  lemma OperationsAreAccepted(s: Epoll, fd: nat, events: Mask)
    requires Inv(s)
    ensures Accepts(s.kernel, UpdateOperation(s, fd, events), fd)
    ensures fd in s.index && s.index[fd] == ADDED ==> Accepts(s.kernel, Del, fd)
    ensures Inv(Update(s, fd, events)) && Inv(Remove(s, fd))
    ensures Update(s, fd, events).kernel
            == if UpdateOperation(s, fd, events).Del? then s.kernel - {fd} else s.kernel[fd := events]
    ensures Remove(s, fd).kernel == if fd in s.index then s.kernel - {fd} else s.kernel
  {
    if fd in s.index && s.index[fd] == DELETED {
      assert s.kernel - {fd} == s.kernel;
    }
  }

  /** After an update a descriptor is in the kernel's list, with the mask asked for, exactly if something
      was asked for or it was not there: disabling a watched one takes it out, disabling it again puts it
      back with an empty mask. No other descriptor is touched. */
  lemma DisablingRemoves(s: Epoll, fd: nat, events: Mask)
    requires Inv(s)
    ensures var t := Update(s, fd, events);
            && (fd in t.kernel <==> events != NONE_EVENT || fd !in s.kernel)
            && (fd in t.kernel ==> t.kernel[fd] == events)
            && t.kernel - {fd} == s.kernel - {fd} && t.index - {fd} == s.index - {fd}
            && fd in t.index && (t.index[fd] == ADDED <==> fd in t.kernel)
  {
    var t := Update(s, fd, events);
    assert forall f | f in t.kernel - {fd} :: f in s.kernel - {fd} && t.kernel[f] == s.kernel[f];
    assert forall f | f in s.kernel - {fd} :: f in t.kernel - {fd};
  }

  class EpollPoller {
    var channels: map<nat, Channel>
    var kernel: map<nat, Mask>

    ghost predicate Valid()
      reads this, channels.Values`index
    {
      (forall fd | fd in channels :: channels[fd].fd == fd) && Inv(State())
    }

    ghost function State(): Epoll
      reads this, channels.Values`index
    {
      Epoll(kernel, map fd | fd in channels :: channels[fd].index)
    }

    /** The program's assertions: a new channel is unknown, any other known. */
    ghost predicate Knows(channel: Channel)
      reads this, channel
    {
      if channel.index == NEW then channel.fd !in channels
      else channel.fd in channels && channels[channel.fd] == channel
    }

    constructor ()
      ensures Valid() && State() == NEW_EPOLL
    {
      channels, kernel := map[], map[];
    }

    /** `update`: the operation is never one the kernel would refuse. */
    method Perform(op: Operation, channel: Channel)
      requires Accepts(kernel, op, channel.fd)
      modifies this`kernel
      ensures kernel == Control(old(kernel), op, channel.fd, channel.events)
    {
      if op.Del? {
        kernel := kernel - {channel.fd};
      } else {
        kernel := kernel[channel.fd := channel.events];
      }
    }

    method UpdateChannel(channel: Channel)
      requires Valid() && Knows(channel)
      modifies this, channel`index
      ensures State() == Update(old(State()), channel.fd, channel.events)
      ensures Valid() && Knows(channel) && channel.index != NEW
      ensures channels == old(channels)[channel.fd := channel]
    {
      OperationsAreAccepted(State(), channel.fd, channel.events);
      if channel.index == NEW || channel.index == DELETED {
        Register(channel);
      } else {
        Change(channel);
      }
    }

    method Register(channel: Channel)
      requires Valid() && Knows(channel) && (channel.index == NEW || channel.index == DELETED)
      modifies this, channel`index
      ensures State() == Update(old(State()), channel.fd, channel.events)
      ensures channels == old(channels)[channel.fd := channel] && channel.index == ADDED
    {
      ghost var before := State();
      OperationsAreAccepted(before, channel.fd, channel.events);
      var fd: nat := channel.fd;
      assert channel.index == DELETED ==> fd in before.index && before.index[fd] == DELETED;
      if channel.index == NEW {
        channels := channels[fd := channel];
      }
      channel.index := ADDED;
      Perform(Add, channel);
      assert State().index == before.index[fd := ADDED];
    }

    method Change(channel: Channel)
      requires Valid() && Knows(channel) && channel.index != NEW && channel.index != DELETED
      modifies this`kernel, channel`index
      ensures State() == Update(old(State()), channel.fd, channel.events)
      ensures channels == old(channels)[channel.fd := channel] && channel.index != NEW
    {
      ghost var before := State();
      OperationsAreAccepted(before, channel.fd, channel.events);
      assert channel.fd in before.index && before.index[channel.fd] == ADDED;
      if channel.events == NONE_EVENT {
        Perform(Del, channel);
        channel.index := DELETED;
      } else {
        Perform(Mod, channel);
      }
      assert State().index == before.index[channel.fd := channel.index];
    }

    method RemoveChannel(channel: Channel)
      requires Valid() && Knows(channel) && channel.index != NEW && channel.events == NONE_EVENT
      modifies this, channel`index
      ensures State() == Remove(old(State()), channel.fd)
      ensures Valid() && Knows(channel) && channel.index == NEW
      ensures channels == old(channels) - {channel.fd}
    {
      ghost var before := State();
      OperationsAreAccepted(before, channel.fd, channel.events);
      var fd: nat, index := channel.fd, channel.index;
      assert fd in before.index && before.index[fd] == index;
      channels := channels - {fd};
      if index == ADDED {
        Perform(Del, channel);
      }
      channel.index := NEW;
      assert State().index == Remove(before, fd).index;
    }
  }
}
