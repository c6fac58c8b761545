/** The in-memory mailbox index of src/index/inmemory.rs: a map from names
    to mailboxes, with an INBOX created on first request. */
module IndexInMemory {
  import opened Wrappers
  import Chars
  import opened Index

  const Inbox: string := "INBOX"

  /** What `add_mailbox` does to the map: refuse a name already present,
      else store a fresh mailbox under it, ignoring the count, flags and
      permission supplied. */
  function Added(m: map<string, Mailbox>, mailbox: Mailbox): (r: (Outcome<MailboxError>, map<string, Mailbox>))
    ensures mailbox.name in m ==> r == (Fail(Exists(mailbox.name)), m)
    ensures mailbox.name !in m ==>
      r == (Pass, m[mailbox.name := NewMailbox(mailbox.name, 0, [], ReadOnly)])
  {
    if mailbox.name in m then (Fail(Exists(mailbox.name)), m)
    else (Pass, m[mailbox.name := NewMailbox(mailbox.name, 0, [], ReadOnly)])
  }

  /** What `get_mailbox` answers, and the map afterwards. */
  function Got(m: map<string, Mailbox>, name: string, permission: Permission): (Result<Mailbox, MailboxError>, map<string, Mailbox>) {
    if name in m then (Success(m[name].(permission := permission)), m)
    else if Chars.EqIgnoreAsciiCase(Inbox, name) then
      var (added, m') := Added(m, NewMailbox(Inbox, 0, [], ReadOnly));
      if added.Fail? then (Failure(added.error), m')
      else (Success(m'[Inbox]), m')
    else (Failure(DoesNotExist(name)), m)
  }

  /** The `start` loop over the requests that arrive: one reply per request,
      and the map afterwards. */
  function Served(m: map<string, Mailbox>, requests: seq<GetMailboxRequest>): (r: (seq<Option<Mailbox>>, map<string, Mailbox>))
    ensures |r.0| == |requests|
    decreases |requests|
  {
    if requests == [] then ([], m)
    else
      var (got, m') := Got(m, requests[0].name, requests[0].permission);
      var rest := Served(m', requests[1..]);
      ([Reply(got)] + rest.0, rest.1)
  }

  /** `InMemoryIndex`. */
  class InMemoryIndex {
    var mailboxes: map<string, Mailbox>

    /** `new`: no mailboxes. */
    constructor()
      ensures mailboxes == map[]
    {
      mailboxes := map[];
    }

    /** `add_mailbox`. */
    method AddMailbox(mailbox: Mailbox) returns (r: Outcome<MailboxError>)
      modifies this
      ensures (r, mailboxes) == Added(old(mailboxes), mailbox)
    {
      if mailbox.name in mailboxes {
        return Fail(Exists(mailbox.name));
      }
      mailboxes := mailboxes[mailbox.name := NewMailbox(mailbox.name, 0, [], ReadOnly)];
      return Pass;
    }

    /** `get_mailbox`: a stored mailbox with the requested permission; for
        a missing INBOX, in any ASCII case, add INBOX and return it. */
    method GetMailbox(name: string, permission: Permission) returns (r: Result<Mailbox, MailboxError>)
      modifies this
      ensures (r, mailboxes) == Got(old(mailboxes), name, permission)
    {
      if name in mailboxes {
        return Success(mailboxes[name].(permission := permission));
      }
      if Chars.EqIgnoreAsciiCase(Inbox, name) {
        var added := AddMailbox(NewMailbox(Inbox, 0, [], ReadOnly));
        if added.Fail? {
          return Failure(added.error);
        }
        return Success(mailboxes[Inbox]);
      }
      return Failure(DoesNotExist(name));
    }

    /** `Index::start`: answer each request in turn. */
    method Start(requests: seq<GetMailboxRequest>) returns (replies: seq<Option<Mailbox>>)
      modifies this
      ensures (replies, mailboxes) == Served(old(mailboxes), requests)
    {
      replies := [];
      assert requests[0..] == requests;
      for i := 0 to |requests|
        invariant |replies| == i
        invariant Served(old(mailboxes), requests).0 == replies + Served(mailboxes, requests[i..]).0
        invariant Served(old(mailboxes), requests).1 == Served(mailboxes, requests[i..]).1
      {
        assert requests[i..][1..] == requests[i + 1..];
        var got := GetMailbox(requests[i].name, requests[i].permission);
        replies := replies + [Reply(got)];
      }
      assert requests[|requests|..] == [];
      assert replies + [] == replies;
    }
  }

  /** A stored mailbox comes back with the requested permission and every
      other field as stored; the map is unchanged. */
  lemma StoredMailbox(m: map<string, Mailbox>, name: string, permission: Permission)
    requires name in m
    ensures var (r, m') := Got(m, name, permission);
      && r.Success? && m' == m
      && r.value.permission == permission
      && r.value.name == m[name].name && r.value.count == m[name].count
      && r.value.flags == m[name].flags
  {
  }

  /** A missing INBOX, in any ASCII case, is created and returned ReadOnly
      whatever permission was asked for. */
  lemma InboxCreated(m: map<string, Mailbox>, name: string, permission: Permission)
    requires name !in m && Inbox !in m && Chars.EqIgnoreAsciiCase(Inbox, name)
    ensures Got(m, name, permission)
         == (Success(Mailbox(Inbox, 0, [], ReadOnly)), m[Inbox := Mailbox(Inbox, 0, [], ReadOnly)])
  {
  }

  /** Names are case-sensitive: once INBOX exists, asking for another
      spelling of it fails with `Exists` from the attempted insert. */
  lemma OtherSpellingOfInbox(m: map<string, Mailbox>, name: string, permission: Permission)
    requires name !in m && Inbox in m && Chars.EqIgnoreAsciiCase(Inbox, name)
    ensures Got(m, name, permission) == (Failure(Exists(Inbox)), m)
  {
  }

  /** `inbox` after INBOX has been created: the lookup fails. */
  lemma LowerInboxExample(m: map<string, Mailbox>, permission: Permission)
    requires m == map[Inbox := Mailbox(Inbox, 0, [], ReadOnly)]
    ensures Got(m, "inbox", permission) == (Failure(Exists(Inbox)), m)
  {
    assert "inbox" != Inbox;
    assert Chars.EqIgnoreAsciiCase(Inbox, "inbox");
  }

  /** Any other missing name is `DoesNotExist`, and nothing is added. */
  lemma MissingMailbox(m: map<string, Mailbox>, name: string, permission: Permission)
    requires name !in m && !Chars.EqIgnoreAsciiCase(Inbox, name)
    ensures Got(m, name, permission) == (Failure(DoesNotExist(name)), m)
  {
  }

  /** `get_mailbox` never removes or changes a stored mailbox; at most it
      adds INBOX. */
  lemma GotKeeps(m: map<string, Mailbox>, name: string, permission: Permission)
    ensures var m' := Got(m, name, permission).1;
      && (forall k :: k in m ==> k in m' && m'[k] == m[k])
      && (forall k :: k in m' && k !in m ==> k == Inbox)
  {
  }

  /** The loop answers request `i` with the result of `get_mailbox` on the
      map left by the earlier requests. */
  lemma ServedInOrder(m: map<string, Mailbox>, requests: seq<GetMailboxRequest>)
    requires requests != []
    ensures Served(m, requests).0[0] == Reply(Got(m, requests[0].name, requests[0].permission).0)
    ensures Served(m, requests).0[1..]
         == Served(Got(m, requests[0].name, requests[0].permission).1, requests[1..]).0
  {
  }

  /** Serving two runs of requests is serving the second run on the map
      the first left. */
  lemma {:induction false} ServedConcat(m: map<string, Mailbox>, a: seq<GetMailboxRequest>, b: seq<GetMailboxRequest>)
    decreases |a|
    ensures Served(m, a + b).0 == Served(m, a).0 + Served(Served(m, a).1, b).0
    ensures Served(m, a + b).1 == Served(Served(m, a).1, b).1
  {
    if a == [] {
      assert a + b == b;
    } else {
      assert (a + b)[0] == a[0];
      assert (a + b)[1..] == a[1..] + b;
      ServedConcat(Got(m, a[0].name, a[0].permission).1, a[1..], b);
    }
  }

  /** However many requests are served, every stored mailbox stays as it
      was and a stored name is always answered. */
  lemma {:induction false} ServedKeeps(m: map<string, Mailbox>, requests: seq<GetMailboxRequest>)
    decreases |requests|
    ensures forall k :: k in m ==> k in Served(m, requests).1 && Served(m, requests).1[k] == m[k]
    ensures forall i :: 0 <= i < |requests| && requests[i].name in m ==> Served(m, requests).0[i].Some?
  {
    if requests != [] {
      var m' := Got(m, requests[0].name, requests[0].permission).1;
      GotKeeps(m, requests[0].name, requests[0].permission);
      ServedKeeps(m', requests[1..]);
      forall i | 0 <= i < |requests| && requests[i].name in m
        ensures Served(m, requests).0[i].Some?
      {
        if i > 0 {
          assert requests[1..][i - 1] == requests[i];
        }
      }
    }
  }
}
