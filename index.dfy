/** The mailbox types of src/index/mod.rs and the reply mapping of the
    index's request loop. */
module Index {
  import opened Wrappers

  /** `u64`, the width of a mailbox's message count. */
  newtype u64 = x: int | 0 <= x < 0x1_0000_0000_0000_0000

  datatype Permission = ReadOnly | ReadWrite

  datatype Flag = Flag(value: string, permanent: bool)

  /** A mailbox; its name is a path, modelled as the text it was made from. */
  datatype Mailbox = Mailbox(name: string, count: u64, flags: seq<Flag>, permission: Permission)

  datatype MailboxError = Exists(name: string) | DoesNotExist(name: string)

  /** `GetMailboxRequest`: the reply channel is the loop's output. */
  datatype GetMailboxRequest = GetMailboxRequest(name: string, permission: Permission)

  /** `Mailbox::new`: every field as given. */
  function NewMailbox(name: string, count: u64, flags: seq<Flag>, permission: Permission): (m: Mailbox)
    ensures m.name == name && m.count == count && m.flags == flags && m.permission == permission
  {
    Mailbox(name, count, flags, permission)
  }

  /** What `start` sends back for the result of `get_mailbox`: the mailbox
      when there is one, else nothing. */
  function Reply(r: Result<Mailbox, MailboxError>): (o: Option<Mailbox>)
    ensures o.Some? <==> r.Success?
    ensures r.Success? ==> o.value == r.value
  {
    match r
    case Success(m) => Some(m)
    case Failure(_) => None
  }
}
