/** The caller-ID module (user mode +g and the ACCEPT command) as the code
    runs it: the per-user records are updated in place, numerics are written
    as they are produced, and loops walk the parameters, the tokens, the
    accept set and the client list. Every method is proved to leave exactly
    the state and numerics of a CallerIdSpec function: usually the one of the
    same name; OnUserPreNotice that of OnUserPreMessage; WriteAcceptList that
    of Entries; Handle, HandleParameter and HandleNextToken that of
    HandleTokens. Server.WriteNumeric only appends one numeric. */
module CallerId {
  import opened CallerIdTypes
  import Spec = CallerIdSpec
  import SetOrder
  import CommaSep

  /** What the module reaches of the server: the "callerid_data" extension
      each user may carry, and the numerics written to users so far. */
  class Server {
    var ext: Store
    var replies: seq<Reply>

    constructor ()
      ensures ext == map[] && replies == []
    {
      ext := map[];
      replies := [];
    }

    /** User::WriteNumeric: one more numeric to a user. */
    method WriteNumeric(r: Reply)
      modifies this
      ensures ext == old(ext) && replies == old(replies) + [r]
    {
      replies := replies + [r];
    }

    /** GetData(who, extend): the record attached to `who`, attaching a fresh
        one when there is none and `extend` is set. */
    method GetData(who: UserId, extend: bool) returns (dat: Option<Record>)
      modifies this
      ensures ext == Spec.GetData(old(ext), who, extend).store
      ensures dat == Spec.GetData(old(ext), who, extend).found
      ensures replies == old(replies)
    {
      if who in ext {
        return Some(ext[who]);
      } else {
        if extend {
          ext := ext[who := EMPTY_RECORD];
          return Some(EMPTY_RECORD);
        } else {
          return None;
        }
      }
    }

    /** RemoveData(who): detach and discard `who`'s record, if any. */
    method RemoveData(who: UserId)
      modifies this
      ensures ext == Spec.RemoveData(old(ext), who)
      ensures replies == old(replies)
    {
      var dat := GetData(who, false);
      if dat.None? {
        return;
      }
      ext := ext - {who};
    }

    /** RemoveFromAllAccepts(who): walk the client list and erase `who` from
        the accept set of every listed user that has a record. */
    method RemoveFromAllAccepts(clients: seq<UserId>, who: UserId)
      modifies this
      ensures ext == Spec.RemoveFromAllAccepts(old(ext), clients, who)
      ensures replies == old(replies)
    {
      for i := 0 to |clients|
        invariant ext == Spec.RemoveFromAllAccepts(old(ext), clients[..i], who)
        invariant replies == old(replies)
      {
        ghost var next := Spec.EraseFrom(ext, clients[i], who);
        assert clients[..i + 1][..i] == clients[..i];
        assert Spec.RemoveFromAllAccepts(old(ext), clients[..i + 1], who) == next;
        var dat := GetData(clients[i], false);
        if dat.None? {
          continue;
        }
        var accepting := dat.value.accepting;
        if who !in accepting {
          assert accepting - {who} == accepting;
          assert ext[clients[i] := dat.value.(accepting := accepting - {who})] == ext;
          continue;
        }
        ext := ext[clients[i] := dat.value.(accepting := accepting - {who})];
      }
      assert clients[..|clients|] == clients;
    }
  }

  /** The ACCEPT command. */
  class CommandAccept {
    const server: Server
    const maxaccepts: nat

    constructor (server: Server, maxaccepts: nat)
      ensures this.server == server && this.maxaccepts == maxaccepts
    {
      this.server := server;
      this.maxaccepts := maxaccepts;
    }

    /** Handle(parameters, user): every parameter is split on commas and each
        token is acted on in turn; `nicks` is the server's nick table. The
        command reports CmdFailure exactly when some addition or removal took
        effect, as the code is written. */
    method Handle(parameters: seq<string>, user: UserId, userIsLocal: bool, nicks: map<string, UserId>)
      returns (res: CmdResult)
      modifies server
      ensures var o := Spec.HandleTokens(old(server.ext), user, userIsLocal, nicks, maxaccepts, Spec.Tokens(parameters));
              && server.ext == o.store
              && server.replies == old(server.replies) + o.replies
              && res == (if o.changed then CmdFailure else CmdSuccess)
    {
      var atleastonechange := false;
      ghost var done: seq<string> := [];
      for i := 0 to |parameters|
        invariant done == Spec.Tokens(parameters[..i])
        invariant var o := Spec.HandleTokens(old(server.ext), user, userIsLocal, nicks, maxaccepts, done);
                  && server.ext == o.store
                  && server.replies == old(server.replies) + o.replies
                  && atleastonechange == o.changed
      {
        atleastonechange := HandleParameter(parameters[i], user, userIsLocal, nicks,
                                            old(server.ext), old(server.replies), done, atleastonechange);
        assert parameters[..i + 1][..i] == parameters[..i];
        done := done + CommaSep.Split(parameters[i]);
      }
      assert parameters[..|parameters|] == parameters;
      res := if atleastonechange then CmdFailure else CmdSuccess;
    }

    /** Handle's token loop over one parameter: its comma-separated tokens
        are acted on in turn, continuing the batch `done` that started on the
        table `st0` with the numerics `r0` already written; `changed0` is the
        change flag so far and the flag afterwards is returned. */
    method HandleParameter(param: string, user: UserId, userIsLocal: bool, nicks: map<string, UserId>,
                           ghost st0: Store, ghost r0: seq<Reply>, ghost done: seq<string>, changed0: bool)
      returns (changed: bool)
      modifies server
      requires var o := Spec.HandleTokens(st0, user, userIsLocal, nicks, maxaccepts, done);
               && server.ext == o.store
               && server.replies == r0 + o.replies
               && changed0 == o.changed
      ensures var o := Spec.HandleTokens(st0, user, userIsLocal, nicks, maxaccepts, done + CommaSep.Split(param));
              && server.ext == o.store
              && server.replies == r0 + o.replies
              && changed == o.changed
    {
      var toks := CommaSep.Split(param);
      changed := changed0;
      assert done + toks[..0] == done;
      for j := 0 to |toks|
        invariant var o := Spec.HandleTokens(st0, user, userIsLocal, nicks, maxaccepts, done + toks[..j]);
                  && server.ext == o.store
                  && server.replies == r0 + o.replies
                  && changed == o.changed
      {
        PrefixStep(done, toks, j);
        changed := HandleNextToken(toks[j], user, userIsLocal, nicks, st0, r0, done + toks[..j], changed);
      }
      assert toks[..|toks|] == toks;
    }

    /** One more token of the batch `done`: it acts on the table the batch
        left, its numerics follow the batch's, and the flag is or-ed with
        its change. */
    method HandleNextToken(tok: string, user: UserId, userIsLocal: bool, nicks: map<string, UserId>,
                           ghost st0: Store, ghost r0: seq<Reply>, ghost done: seq<string>, changed0: bool)
      returns (changed: bool)
      modifies server
      requires var o := Spec.HandleTokens(st0, user, userIsLocal, nicks, maxaccepts, done);
               && server.ext == o.store
               && server.replies == r0 + o.replies
               && changed0 == o.changed
      ensures var o := Spec.HandleTokens(st0, user, userIsLocal, nicks, maxaccepts, done + [tok]);
              && server.ext == o.store
              && server.replies == r0 + o.replies
              && changed == o.changed
    {
      ghost var prev := Spec.HandleTokens(st0, user, userIsLocal, nicks, maxaccepts, done);
      Spec.HandleTokensSnoc(st0, user, userIsLocal, nicks, maxaccepts, done, tok);
      var stepChanged := HandleToken(tok, user, userIsLocal, nicks);
      changed := stepChanged || changed0;
      AppendAssoc(r0, prev.replies, Spec.HandleToken(prev.store, user, userIsLocal, nicks, maxaccepts, tok).replies);
    }

    /** One pass of Handle's token loop: skip an empty token; for "*", skip
        when the invoker is local and list otherwise; remove a "-nick" that
        resolves; add a "+nick" or "nick" that resolves and report the raw
        token as ERR_NOSUCHNICK when it does not. Returns whether an addition
        or removal took effect. */
    method HandleToken(tok: string, user: UserId, userIsLocal: bool, nicks: map<string, UserId>)
      returns (changed: bool)
      modifies server
      ensures var o := Spec.HandleToken(old(server.ext), user, userIsLocal, nicks, maxaccepts, tok);
              && server.ext == o.store
              && server.replies == old(server.replies) + o.replies
              && changed == o.changed
    {
      changed := false;
      if tok == "" {
        return;
      }
      if tok == "*" {
        if userIsLocal {
          return;
        }
        ListAccept(user);
      } else if tok[0] == '-' {
        var whotoremove := tok[1..];
        if whotoremove in nicks {
          changed := RemoveAccept(user, nicks[whotoremove], false);
        }
      } else {
        var whotoadd := if tok[0] == '+' then tok[1..] else tok;
        if whotoadd in nicks {
          changed := AddAccept(user, nicks[whotoadd], false);
        } else {
          server.WriteNumeric(Reply(user, ERR_NOSUCHNICK, RawToken(tok)));
        }
      }
    }

    /** ListAccept(user): an RPL_ACCEPTLIST for each accepted user, walking the
        set from begin() to end() (in increasing order), then RPL_ENDOFACCEPT. */
    method ListAccept(user: UserId)
      modifies server
      ensures server.ext == old(server.ext)
      ensures server.replies == old(server.replies) + Spec.ListAccept(old(server.ext), user)
    {
      ghost var listing := Spec.Entries(user, SetOrder.Elements(Accepting(old(server.ext), user)));
      var dat := server.GetData(user, false);
      if dat.Some? {
        assert dat.value.accepting == Accepting(old(server.ext), user);
        WriteAcceptList(user, SetOrder.Elements(dat.value.accepting));
      } else {
        assert SetOrder.Elements({}) == [];
      }
      server.WriteNumeric(Reply(user, RPL_ENDOFACCEPT, Nobody));
      AppendAssoc(old(server.replies), listing, [Reply(user, RPL_ENDOFACCEPT, Nobody)]);
    }

    /** The loop of ListAccept: one RPL_ACCEPTLIST per user of `accepting`, in
        the order given. */
    method WriteAcceptList(user: UserId, accepting: seq<UserId>)
      modifies server
      ensures server.ext == old(server.ext)
      ensures server.replies == old(server.replies) + Spec.Entries(user, accepting)
    {
      for k := 0 to |accepting|
        invariant server.ext == old(server.ext)
        invariant server.replies == old(server.replies) + Spec.Entries(user, accepting[..k])
      {
        assert accepting[..k + 1][..k] == accepting[..k];
        server.WriteNumeric(Reply(user, RPL_ACCEPTLIST, Nick(accepting[k])));
      }
      assert accepting[..|accepting|] == accepting;
    }

    /** AddAccept(user, whotoadd, quiet): insert `whotoadd` into `user`'s
        accept set unless it is full or already holds it. */
    method AddAccept(user: UserId, whotoadd: UserId, quiet: bool) returns (added: bool)
      modifies server
      ensures var o := Spec.AddAccept(old(server.ext), user, whotoadd, maxaccepts, quiet);
              && server.ext == o.store
              && server.replies == old(server.replies) + o.replies
              && added == o.changed
    {
      var dat := server.GetData(user, true);
      var accepting := dat.value.accepting;
      if |accepting| >= maxaccepts {
        if !quiet {
          server.WriteNumeric(Reply(user, ERR_ACCEPTFULL, Limit(maxaccepts)));
        }
        return false;
      }
      if whotoadd in accepting {
        if !quiet {
          server.WriteNumeric(Reply(user, ERR_ACCEPTEXIST, Nick(whotoadd)));
        }
        return false;
      }
      server.ext := server.ext[user := dat.value.(accepting := accepting + {whotoadd})];
      return true;
    }

    /** RemoveAccept(user, whotoremove, quiet): erase `whotoremove` from
        `user`'s accept set, if there is a record holding it. */
    method RemoveAccept(user: UserId, whotoremove: UserId, quiet: bool) returns (removed: bool)
      modifies server
      ensures var o := Spec.RemoveAccept(old(server.ext), user, whotoremove, quiet);
              && server.ext == o.store
              && server.replies == old(server.replies) + o.replies
              && removed == o.changed
    {
      var dat := server.GetData(user, false);
      if dat.None? {
        if !quiet {
          server.WriteNumeric(Reply(user, ERR_ACCEPTNOT, Nick(whotoremove)));
        }
        return false;
      }
      var accepting := dat.value.accepting;
      if whotoremove !in accepting {
        if !quiet {
          server.WriteNumeric(Reply(user, ERR_ACCEPTNOT, Nick(whotoremove)));
        }
        return false;
      }
      server.ext := server.ext[user := dat.value.(accepting := accepting - {whotoremove})];
      return true;
    }
  }

  /** The module: its configuration and its event hooks. */
  class ModuleCallerId {
    const server: Server
    const mycommand: CommandAccept
    const maxaccepts: nat
    const operoverride: bool
    const tracknick: bool
    const notifyCooldown: nat

    /** The module with the configuration OnRehash read, and its command
        sharing the same accept limit. */
    constructor (server: Server, cfg: Config)
      ensures this.server == server && fresh(mycommand)
      ensures mycommand.server == server && mycommand.maxaccepts == cfg.maxaccepts
      ensures maxaccepts == cfg.maxaccepts && operoverride == cfg.operoverride
      ensures tracknick == cfg.tracknick && notifyCooldown == cfg.cooldown
    {
      this.server := server;
      maxaccepts := cfg.maxaccepts;
      operoverride := cfg.operoverride;
      tracknick := cfg.tracknick;
      notifyCooldown := cfg.cooldown;
      mycommand := new CommandAccept(server, cfg.maxaccepts);
    }

    /** PreText(user, dest): the gate; `destModeG` is whether `dest` is +g,
        `userIsOper` whether the sender is an oper, `now` the clock. */
    method PreText(user: UserId, dest: UserId, destModeG: bool, userIsOper: bool, now: int)
      returns (verdict: int)
      modifies server
      ensures var g := Spec.PreText(old(server.ext), user, dest, destModeG, userIsOper, operoverride, notifyCooldown, now);
              && server.ext == g.store
              && server.replies == old(server.replies) + g.replies
              && verdict == g.verdict
    {
      if !destModeG {
        return ALLOW;
      }
      if operoverride && userIsOper {
        return ALLOW;
      }
      var dat := server.GetData(dest, true);
      var accepting := dat.value.accepting;
      var lastnotify := dat.value.lastnotify;
      if dest !in accepting {
        server.WriteNumeric(Reply(user, ERR_TARGUMODEG, Nick(dest)));
        if now > lastnotify + notifyCooldown {
          server.WriteNumeric(Reply(user, RPL_TARGNOTIFY, Nick(dest)));
          server.WriteNumeric(Reply(dest, RPL_UMODEGMSG, Nick(user)));
          server.ext := server.ext[dest := dat.value.(lastnotify := now)];
        }
        return BLOCK;
      }
      return ALLOW;
    }

    /** OnUserPreMessage: gate a local user's private message. */
    method OnUserPreMessage(user: UserId, userIsLocal: bool, dest: UserId, targetType: TargetType,
                            destModeG: bool, userIsOper: bool, now: int) returns (verdict: int)
      modifies server
      ensures var g := Spec.OnUserPreMessage(old(server.ext), user, userIsLocal, targetType, dest, destModeG,
                                             userIsOper, operoverride, notifyCooldown, now);
              && server.ext == g.store
              && server.replies == old(server.replies) + g.replies
              && verdict == g.verdict
    {
      if userIsLocal && targetType == TypeUser {
        verdict := PreText(user, dest, destModeG, userIsOper, now);
        return;
      }
      return ALLOW;
    }

    /** OnUserPreNotice: gate a local user's notice, exactly as a message. */
    method OnUserPreNotice(user: UserId, userIsLocal: bool, dest: UserId, targetType: TargetType,
                           destModeG: bool, userIsOper: bool, now: int) returns (verdict: int)
      modifies server
      ensures var g := Spec.OnUserPreMessage(old(server.ext), user, userIsLocal, targetType, dest, destModeG,
                                             userIsOper, operoverride, notifyCooldown, now);
              && server.ext == g.store
              && server.replies == old(server.replies) + g.replies
              && verdict == g.verdict
    {
      if userIsLocal && targetType == TypeUser {
        verdict := PreText(user, dest, destModeG, userIsOper, now);
        return;
      }
      return ALLOW;
    }

    /** OnCleanup(type, item): on unload, drop a user item's record. */
    method OnCleanup(targetType: TargetType, item: UserId)
      modifies server
      ensures server.ext == Spec.OnCleanup(old(server.ext), targetType, item)
      ensures server.replies == old(server.replies)
    {
      if targetType != TypeUser {
        return;
      }
      server.RemoveData(item);
    }

    /** OnUserPreNick(user, newnick): unless tracknick is set, a nick change
        drops the user from every accept list; the change is never refused. */
    method OnUserPreNick(user: UserId, newnick: string, clients: seq<UserId>) returns (r: int)
      modifies server
      ensures server.ext == Spec.OnUserPreNick(old(server.ext), clients, user, tracknick)
      ensures server.replies == old(server.replies)
      ensures r == 0
    {
      if !tracknick {
        server.RemoveFromAllAccepts(clients, user);
      }
      return 0;
    }

    /** OnUserQuit(user): drop the quitter's record, then the quitter from
        every accept list. */
    method OnUserQuit(user: UserId, clients: seq<UserId>)
      modifies server
      ensures server.ext == Spec.OnUserQuit(old(server.ext), clients, user)
      ensures server.replies == old(server.replies)
    {
      server.RemoveData(user);
      server.RemoveFromAllAccepts(clients, user);
    }
  }

  lemma AppendAssoc<T>(a: seq<T>, b: seq<T>, c: seq<T>)
    ensures (a + b) + c == a + (b + c)
  {
  }

  lemma PrefixStep<T>(a: seq<T>, b: seq<T>, j: nat)
    requires j < |b|
    ensures a + b[..j + 1] == (a + b[..j]) + [b[j]]
  {
    assert b[..j + 1] == b[..j] + [b[j]];
  }
}
