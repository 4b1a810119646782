/** Both pollers implement the same map from descriptors to event masks. */
module Pollers {
  import opened Channel
  import P = PollPoller
  import E = EpollPoller

  /** What the channels of a loop ask of their poller. */
  datatype Request = Update(fd: nat, events: Mask) | Remove(fd: nat)

  /** The registered channels and the events each cares about: the map both pollers stand for. */
  type Wanted = map<nat, Mask>

  /** A first update asks for something, and only a channel that asks for nothing is removed. */
  predicate Allowed(wanted: Wanted, r: Request) {
    match r
    case Update(fd, events) => fd in wanted || events != NONE_EVENT
    case Remove(fd) => fd in wanted && wanted[fd] == NONE_EVENT
  }

  function Apply(wanted: Wanted, r: Request): Wanted {
    match r
    case Update(fd, events) => wanted[fd := events]
    case Remove(fd) => wanted - {fd}
  }

  function ApplyPoll(s: P.Poll, r: Request): P.Poll {
    match r
    case Update(fd, events) => P.Update(s, fd, events)
    case Remove(fd) => P.Remove(s, fd)
  }

  function ApplyEpoll(s: E.Epoll, r: Request): E.Epoll {
    match r
    case Update(fd, events) => E.Update(s, fd, events)
    case Remove(fd) => E.Remove(s, fd)
  }

  predicate AllAllowed(wanted: Wanted, rs: seq<Request>)
    decreases |rs|
  {
    rs == [] || (Allowed(wanted, rs[0]) && AllAllowed(Apply(wanted, rs[0]), rs[1..]))
  }

  function Result(wanted: Wanted, rs: seq<Request>): Wanted
    decreases |rs|
  {
    if rs == [] then wanted else Result(Apply(wanted, rs[0]), rs[1..])
  }

  function PollResult(s: P.Poll, rs: seq<Request>): P.Poll
    decreases |rs|
  {
    if rs == [] then s else PollResult(ApplyPoll(s, rs[0]), rs[1..])
  }

  function EpollResult(s: E.Epoll, rs: seq<Request>): E.Epoll
    decreases |rs|
  {
    if rs == [] then s else EpollResult(ApplyEpoll(s, rs[0]), rs[1..])
  }

  predicate PollAgrees(s: P.Poll, wanted: Wanted) {
    && P.Inv(s) && s.slots.Keys == wanted.Keys
    && forall fd | fd in s.slots ::
         var entry := s.pollfds[s.slots[fd]];
         entry.events == wanted[fd] && (entry.fd < 0 <==> wanted[fd] == NONE_EVENT)
  }

  predicate EpollAgrees(s: E.Epoll, wanted: Wanted) {
    && E.Inv(s) && s.index.Keys == wanted.Keys
    && (forall fd | fd in s.kernel :: s.kernel[fd] == wanted[fd])
    && (forall fd | fd in wanted :: fd in s.kernel || wanted[fd] == NONE_EVENT)
  }

  lemma PollUpdateAgrees(s: P.Poll, wanted: Wanted, fd: nat, events: Mask)
    requires PollAgrees(s, wanted) && Allowed(wanted, Update(fd, events))
    ensures PollAgrees(P.Update(s, fd, events), wanted[fd := events])
  {
    P.UpdateKeepsInv(s, fd, events);
    var t := P.Update(s, fd, events);
    forall f | f in t.slots
      ensures var entry := t.pollfds[t.slots[f]];
              entry.events == wanted[fd := events][f]
              && (entry.fd < 0 <==> wanted[fd := events][f] == NONE_EVENT)
    {
      if f != fd {
        assert f in s.slots && P.Key(s.pollfds[s.slots[f]]) == f;
      }
    }
  }

  lemma PollRemoveAgrees(s: P.Poll, wanted: Wanted, fd: nat)
    requires PollAgrees(s, wanted) && fd in wanted
    ensures PollAgrees(P.Remove(s, fd), wanted - {fd})
  {
    P.RemoveKeepsInv(s, fd);
    var t := P.Remove(s, fd);
    forall f | f in t.slots
      ensures var entry := t.pollfds[t.slots[f]];
              entry.events == wanted[f] && (entry.fd < 0 <==> wanted[f] == NONE_EVENT)
    {
      assert f in s.slots && P.Key(s.pollfds[s.slots[f]]) == f;
      assert t.pollfds[t.slots[f]] == s.pollfds[s.slots[f]];
    }
  }

  lemma EpollStepAgrees(s: E.Epoll, wanted: Wanted, r: Request)
    requires EpollAgrees(s, wanted) && (r.Update? || r.fd in wanted)
    ensures EpollAgrees(ApplyEpoll(s, r), Apply(wanted, r))
  {
    E.OperationsAreAccepted(s, r.fd, if r.Update? then r.events else NONE_EVENT);
  }

  lemma {:induction false} RunAgrees(p: P.Poll, e: E.Epoll, wanted: Wanted, rs: seq<Request>)
    requires PollAgrees(p, wanted) && EpollAgrees(e, wanted) && AllAllowed(wanted, rs)
    ensures PollAgrees(PollResult(p, rs), Result(wanted, rs))
    ensures EpollAgrees(EpollResult(e, rs), Result(wanted, rs))
    decreases |rs|
  {
    if rs != [] {
      match rs[0] {
        case Update(fd, events) => PollUpdateAgrees(p, wanted, fd, events);
        case Remove(fd) => PollRemoveAgrees(p, wanted, fd);
      }
      EpollStepAgrees(e, wanted, rs[0]);
      RunAgrees(ApplyPoll(p, rs[0]), ApplyEpoll(e, rs[0]), Apply(wanted, rs[0]), rs[1..]);
    }
  }

  lemma PollWatchesWanted(s: P.Poll, wanted: Wanted, fd: nat, events: Mask)
    requires PollAgrees(s, wanted) && events != NONE_EVENT
    ensures P.Watches(s.pollfds, fd, events) <==> fd in wanted && wanted[fd] == events
  {
    if fd in wanted && wanted[fd] == events {
      assert s.pollfds[s.slots[fd]].fd == fd;
    }
    if P.Watches(s.pollfds, fd, events) {
      var i :| 0 <= i < |s.pollfds| && s.pollfds[i].fd == fd && s.pollfds[i].events == events;
      assert P.Key(s.pollfds[i]) == fd;
    }
  }

  /** After the same allowed requests, the poll array and the kernel's list watch the same mask for
      every descriptor, the one wanted, and a channel that wants nothing can be removed from either. */
  lemma PollersAgree(rs: seq<Request>, fd: nat, events: Mask)
    requires AllAllowed(map[], rs) && events != NONE_EVENT
    ensures var p, e, wanted := PollResult(P.NEW_POLL, rs), EpollResult(E.NEW_EPOLL, rs), Result(map[], rs);
            && (P.Watches(p.pollfds, fd, events) <==> fd in wanted && wanted[fd] == events)
            && (E.Watches(e.kernel, fd, events) <==> fd in wanted && wanted[fd] == events)
            && (P.Removable(p, fd) <==> fd in wanted && wanted[fd] == NONE_EVENT)
            && P.Inv(p) && E.Inv(e)
  {
    RunAgrees(P.NEW_POLL, E.NEW_EPOLL, map[], rs);
    PollWatchesWanted(PollResult(P.NEW_POLL, rs), Result(map[], rs), fd, events);
  }

  /** Without any condition on the requests' masks the kernel's list still watches exactly what is
      wanted: a first update without events, or disabling twice, is harmless there. */
  lemma {:induction false} EpollNeedsNoFirstMask(e: E.Epoll, wanted: Wanted, rs: seq<Request>)
    requires EpollAgrees(e, wanted)
    requires OnlyKnownRemoved(wanted, rs)
    ensures EpollAgrees(EpollResult(e, rs), Result(wanted, rs))
    decreases |rs|
  {
    if rs != [] {
      EpollStepAgrees(e, wanted, rs[0]);
      EpollNeedsNoFirstMask(ApplyEpoll(e, rs[0]), Apply(wanted, rs[0]), rs[1..]);
    }
  }

  predicate OnlyKnownRemoved(wanted: Wanted, rs: seq<Request>)
    decreases |rs|
  {
    rs == [] || ((rs[0].Update? || rs[0].fd in wanted) && OnlyKnownRemoved(Apply(wanted, rs[0]), rs[1..]))
  }

  /** The poll array does need it: a channel registered without events cannot be removed. */
  lemma FirstUpdateWithoutEventsBlocksRemoval(fd: nat)
    ensures var p := PollResult(P.NEW_POLL, [Update(fd, NONE_EVENT)]);
            fd in p.slots && !P.Removable(p, fd)
  {
    assert [Update(fd, NONE_EVENT)][1..] == [];
  }
}
