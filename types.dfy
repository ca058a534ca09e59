/** Values shared by the caller-ID (+g) model: user identities, the per-user
    record, the numerics written to users and the module's configuration. */
module CallerIdTypes {

  /** A user's identity. The module stores and compares User objects by
      address; the address is what this id stands for, so the order of ids is
      the order in which a set of users is enumerated. */
  type UserId = nat

  datatype Option<T> = None | Some(value: T)

  /** callerid_data: the time of the last "you are being messaged" notice sent
      to the owner, and the set of users the owner accepts messages from. */
  datatype Record = Record(lastnotify: int, accepting: set<UserId>)

  /** A freshly constructed record: lastnotify is 0, nobody is accepted. */
  const EMPTY_RECORD := Record(0, {})

  /** The "callerid_data" extension of every user that has one. */
  type Store = map<UserId, Record>

  /** The accept set of `who`, empty when `who` has no record. */
  function Accepting(st: Store, who: UserId): set<UserId>
  {
    if who in st then st[who].accepting else {}
  }

  /** What a numeric reply is about: another user, the raw ACCEPT token that
      did not resolve, the configured limit, or nothing beyond the recipient. */
  datatype Subject = Nobody | Nick(id: UserId) | RawToken(text: string) | Limit(n: nat)

  /** One numeric written to a user; the text of the reply is not modelled. */
  datatype Reply = Reply(to: UserId, numeric: nat, subject: Subject)

  const ERR_NOSUCHNICK := 401
  const RPL_ACCEPTLIST := 281
  const RPL_ENDOFACCEPT := 282
  const ERR_ACCEPTFULL := 456
  const ERR_ACCEPTEXIST := 457
  const ERR_ACCEPTNOT := 458
  const ERR_TARGUMODEG := 716
  const RPL_TARGNOTIFY := 717
  const RPL_UMODEGMSG := 718

  /** What a message or notice is addressed to, and what a cleanup item is. */
  datatype TargetType = TypeUser | TypeChannel | TypeServer | TypeOther

  datatype CmdResult = CmdSuccess | CmdFailure

  /** Return values of the pre-message hooks: 0 lets the message through,
      1 drops it. */
  const ALLOW := 0
  const BLOCK := 1

  /** The <callerid> configuration tag: maxaccepts, operoverride, tracknick
      and cooldown (seconds). */
  datatype Config = Config(maxaccepts: nat, operoverride: bool, tracknick: bool, cooldown: nat)

  /** The defaults OnRehash reads when the tag sets nothing (16, off, off,
      60). It only records them; the module is built from whatever Config
      it is given. */
  const DEFAULT_CONFIG := Config(16, false, false, 60)
}
