/** What the outside does to a client: what its sockets do, what the server answers and what observers
    ask for, at each position of the session's events. */
module Surroundings {
  import opened FtpEvents

  /** What would happen at one position: whether a send or a read on a socket works, what get_response
      reads (too little to be a reply when nothing comes), whether the connection outlives a failed
      read, whether a data connection can be made, and how often a callback calls abort(). */
  datatype Happening = Happening(delivered: bool, text: string, stays: bool, reachable: bool, requests: nat)

  type World = nat -> Happening

  function Response(h: Happening): Outcome {
    if GoodReply(h.text) then Got(h.text) else NoReply
  }

  function Answer(h: Happening): Outcome {
    if h.delivered then Response(h) else SendError
  }

  predicate Caused(h: Happening, e: Event) {
    match e
    case Exchange(_, o) => o == Answer(h)
    case Unreachable => !h.reachable
    case Final(o) => o == Response(h)
    case In(_) => h.delivered
    case Eof => h.delivered
    case Out(_) => h.delivered
    case Broken => !h.delivered
    case _ => true
  }

  /** Observers are called. */
  predicate Notifies(e: Event) {
    e.Begin? || e.In? || e.Out? || e.End?
  }

  predicate AskedAt(t: seq<Event>, k: nat) {
    k < |t| && t[k].Asked?
  }

  predicate AskedFrom(w: World, t: seq<Event>, j: nat) {
    forall k: nat :: j <= k < j + w(j).requests ==> AskedAt(t, k)
  }

  /** Event `i` happened as the world has it: its outcome, the requests of the observers it was shown
      to, and if it is a request, who made it. */
  ghost predicate Fits(w: World, t: seq<Event>, i: nat)
    requires i < |t|
  {
    && Caused(w(i), t[i])
    && (Notifies(t[i]) ==> AskedFrom(w, t, i + 1))
    && (t[i].Asked? ==> exists j: nat :: j < i && Notifies(t[j]) && i <= j + w(j + 1).requests)
  }

  ghost predicate Follows(w: World, t: seq<Event>) {
    forall i: nat :: i < |t| ==> Fits(w, t, i)
  }

  lemma AskedOn(w: World, t: seq<Event>, more: seq<Event>, j: nat)
    requires AskedFrom(w, t, j)
    ensures AskedFrom(w, t + more, j)
  {
    forall k: nat | j <= k < j + w(j).requests ensures AskedAt(t + more, k) {
      assert AskedAt(t, k);
    }
  }

  lemma FitsOn(w: World, t: seq<Event>, more: seq<Event>, i: nat)
    requires i < |t| && Fits(w, t, i)
    ensures Fits(w, t + more, i)
  {
    var t' := t + more;
    if Notifies(t[i]) {
      AskedOn(w, t, more, i + 1);
    }
    if t[i].Asked? {
      var j: nat :| j < i && Notifies(t[j]) && i <= j + w(j + 1).requests;
      assert t'[j] == t[j];
    }
  }

  lemma OneMore(w: World, t: seq<Event>, e: Event)
    requires Follows(w, t) && Caused(w(|t|), e) && !Notifies(e) && !e.Asked?
    ensures Follows(w, t + [e])
  {
    forall i: nat | i < |t + [e]| ensures Fits(w, t + [e], i) {
      if i < |t| {
        FitsOn(w, t, [e], i);
      }
    }
  }

  /** An event observers are shown, and all their requests. */
  lemma Shared(w: World, t: seq<Event>, e: Event, asked: seq<Event>)
    requires Follows(w, t) && Caused(w(|t|), e) && Notifies(e)
    requires |asked| == w(|t| + 1).requests && forall k :: 0 <= k < |asked| ==> asked[k].Asked?
    ensures Follows(w, t + [e] + asked)
  {
    var n, t' := |t|, t + [e] + asked;
    assert t' == t + ([e] + asked) && t'[n] == e;
    forall i: nat | i < |t'| ensures Fits(w, t', i) {
      if i < n {
        FitsOn(w, t, [e] + asked, i);
      } else if i == n {
        assert forall k :: n < k <= n + |asked| ==> t'[k] == asked[k - n - 1];
      } else {
        assert t'[i] == asked[i - n - 1];
        assert n < i && Notifies(t'[n]) && i <= n + w(n + 1).requests;
      }
    }
  }
}
