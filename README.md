# Caller-ID (user mode +g and ACCEPT), modelled in Dafny

InspIRCd's `m_callerid` module adds user mode `+g` (server-side ignore). A
local user's private message or notice to a `+g` user is dropped unless the
gate lets it through. When it drops a message, it tells the sender, and at most
once per cooldown window it also tells the recipient. Each user keeps an
accept list, which they manage with the `ACCEPT` command
(`ACCEPT nick1,-nick2,+nick3,*`). The module also clears accept entries when
a user quits, when a user changes nick (unless `tracknick` is set) and when
the module is unloaded.

The project has five files:

- `types.dfy` (module `CallerIdTypes`): the shared values.
  - `UserId`: a user, standing for the `User*` address the module stores.
  - `Record`: the `callerid_data` record, holding `lastnotify` and the `accepting` set.
  - The table of records (`Store`), the numerics, the hook return values and the `<callerid>` configuration.
  - The configuration defaults are 16, off, off and 60 (`DEFAULT_CONFIG`).
- `set_order.dfy` (module `SetOrder`): walks an ordered set from `begin()` to `end()`, as increasing ids.
- `comma_sep.dfy` (module `CommaSep`): the comma token stream the command reads each parameter through.
- `callerid_spec.dfy` (module `CallerIdSpec`): every operation as a function from the old table and the inputs to the new table, the numerics written and the return value. The properties are proved about these functions.
- `callerid.dfy` (module `CallerId`): the module as the code runs it. It has three classes: `Server` (the record extension and the numerics written so far), `CommandAccept` and `ModuleCallerId`, which holds the configuration and the hooks. They update the table in place and loop over parameters, tokens, accept sets and the client list. Each method is proved to leave exactly the state and numerics of a `CallerIdSpec` function. Usually that is the function of the same name. The exceptions are:
  - `OnUserPreNotice` is tied to `CallerIdSpec.OnUserPreMessage`.
  - `WriteAcceptList` is tied to `CallerIdSpec.Entries`.
  - `Handle`, `HandleParameter` and `HandleNextToken` are tied to `CallerIdSpec.HandleTokens`.
  - `Server.WriteNumeric` has no counterpart. It appends one numeric to those written.

Three places in the code look inverted. The model keeps them as written and
states them in its contracts:

- `ACCEPT *` lists nothing when the invoker is local. It lists only for a remote invoker (line 108).
- The gate looks up the recipient itself in the recipient's accept set, not the sender (line 253).
  - So accepting a sender lets nothing through (`AcceptedSenderStillBlocked`).
  - A `+g` user who has accepted themselves lets everyone through (`SelfAcceptedLetsAllThrough`).
- `ACCEPT` returns `CMD_FAILURE` exactly when some addition or removal took effect, and `CMD_SUCCESS` otherwise (line 129).

In six places the code does not do what one might expect of a caller-ID module. The model follows the code in each:

- One might expect listing to be refused for non-local invokers. The code refuses it for local ones, as above.
- One might expect a gated recipient to allow any sender on its accept list. The code checks the recipient, as above.
- One might expect a record to be created only by a successful addition. In the code `AddAccept` calls `GetData(user, true)` first (line 145). When `maxaccepts` is 0, the new empty set already counts as full (0 >= 0). So the invoker gets a record even though the addition is refused. A list can only be full otherwise if a record already exists. The contract of `CallerIdSpec.AddAccept` states this.
- One might expect the first block of a fresh recipient at time 0 to notify both sides. In the code a new record's `lastnotify` is 0, so `0 > 0 + 60` fails and only `ERR_TARGUMODEG` is written (`FirstBlockAtEpochIsThrottled`).
- One might expect whitespace and commas to be treated alike as separators. The code gets whitespace-separated tokens as separate parameters and splits each parameter only on commas. The model does the same.
- One might expect the disconnect sweep to clear the quitter from every remaining user's set. The code does this for the users on the client list it walks. The contract of `CallerIdSpec.OnUserQuit` states the sweep over that list.

## Model

| member | source | states |
|---|---|---|
| SetOrder.Least | src/modules/m_callerid.cpp:137 | the least element of a non-empty set of ids exists, is in the set and is at most every element |
| SetOrder.Elements | src/modules/m_callerid.cpp:137 | the walk over an ordered set has one entry per element, every entry is in the set, and the entries strictly increase |
| SetOrder.ElementsCover | src/modules/m_callerid.cpp:137 | every element of the set appears in the walk |
| CommaSep.Split | src/modules/m_callerid.cpp:98-101 | a parameter with k commas yields k + 1 tokens, none containing a comma (empty ones included) |
| CommaSep.JoinSplit | src/modules/m_callerid.cpp:98-101 | splitting loses nothing: rejoining the tokens with commas gives the parameter back |
| CommaSep.SplitJoin | src/modules/m_callerid.cpp:98-101 | comma-free tokens joined with commas split back into exactly those tokens |
| CallerIdSpec.GetData | src/modules/m_callerid.cpp:19-35 | a record is found iff one exists or `extend` is set; an existing one is returned and the table is untouched; otherwise `extend` attaches a record with lastnotify 0 and an empty set; without `extend` the table is unchanged; no other user's entry changes |
| CallerIdSpec.RemoveData | src/modules/m_callerid.cpp:37-47 | the user's record is gone, the key set loses just that user, and every other record is unchanged |
| CallerIdSpec.EraseFrom | src/modules/m_callerid.cpp:53-64 | one pass of the sweep: keys kept, no other entry changes, and a user with a record keeps its lastnotify while its set loses exactly `who` |
| CallerIdSpec.RemoveFromAllAccepts | src/modules/m_callerid.cpp:49-66 | no record is created or deleted and no lastnotify changes; every listed user's set loses `who`; unlisted users' records are unchanged |
| CallerIdSpec.ListAccept | src/modules/m_callerid.cpp:132-141 | one RPL_ACCEPTLIST (281) to the invoker per accepted user and a final RPL_ENDOFACCEPT (282), also when there is no record |
| CallerIdSpec.ListAcceptCoversInOrder | src/modules/m_callerid.cpp:132-141 | every accepted user is listed, and the listed ids strictly increase, so each is listed once, in set order |
| CallerIdSpec.Entries | src/modules/m_callerid.cpp:137-138 | one RPL_ACCEPTLIST per given user, naming that user, in the given order |
| CallerIdSpec.AddAccept | src/modules/m_callerid.cpp:143-162 | always leaves a record for the invoker, with lastnotify kept; a full set gives ERR_ACCEPTFULL (456) with the limit and no change; a duplicate gives ERR_ACCEPTEXIST (457) and no change; both numerics are suppressed when quiet; otherwise the target is inserted, the size grows by one, no numeric is written and a change is reported; a change never exceeds the limit; the cap is preserved |
| CallerIdSpec.RemoveAccept | src/modules/m_callerid.cpp:164-185 | never creates or deletes a record; reports a change iff the target was in the invoker's set; a change erases exactly that target and writes nothing; otherwise the table is unchanged and ERR_ACCEPTNOT (458) is written unless quiet; no set grows |
| CallerIdSpec.HandleToken | src/modules/m_callerid.cpp:101-127 | an empty token, `*` from a local invoker and `-nick` with an unknown nick do nothing at all; `*` from a non-local invoker writes the listing and changes nothing; a reported change is a removal of a resolved nick that was accepted, or an addition of a resolved nick that was not, and the set changes by exactly that nick; no reported change leaves the set as it was; an unresolved addition writes ERR_NOSUCHNICK (401) with the raw token and changes nothing |
| CallerIdSpec.AddName | src/modules/m_callerid.cpp:121 | the nick an addition names is the token, or the token minus a leading '+' when it has one |
| CallerIdSpec.HandleTokens | src/modules/m_callerid.cpp:94-129 | the batch never deletes a record and creates none but the invoker's |
| CallerIdSpec.HandleTokenResolved | src/modules/m_callerid.cpp:113-124 | a `-nick` token whose nick resolves has exactly RemoveAccept's effect and numerics (458 when not accepted); a `+nick` or `nick` token whose nick resolves has exactly AddAccept's (456 when full, 457 when present) |
| CallerIdSpec.Tokens | src/modules/m_callerid.cpp:95-101 | the tokens of all parameters, in order, none containing a comma |
| CallerIdSpec.AddAcceptConfined | src/modules/m_callerid.cpp:143-162 | an addition touches only the invoker's record, keeps its lastnotify, keeps the cap and writes only to the invoker |
| CallerIdSpec.RemoveAcceptConfined | src/modules/m_callerid.cpp:164-185 | a removal touches only the invoker's record, keeps its lastnotify, keeps the cap and writes only to the invoker |
| CallerIdSpec.HandleTokenConfined | src/modules/m_callerid.cpp:101-127 | one token touches only the invoker's record, never its lastnotify (a new record starts at 0) and never breaks the cap, and every numeric goes to the invoker |
| CallerIdSpec.HandleTokensConfined | src/modules/m_callerid.cpp:90-130 | a whole ACCEPT batch is confined to the invoker in the same way |
| CallerIdSpec.HandleTokensSnoc | src/modules/m_callerid.cpp:101-127 | one more token acts on the table the batch left, appends its numerics and ORs its change into the flag |
| CallerIdSpec.SomeStepChangedSnoc | src/modules/m_callerid.cpp:117-123 | some token of a batch reported a change iff one of the earlier tokens did or the last token did |
| CallerIdSpec.StepAtPrefix | src/modules/m_callerid.cpp:101-127 | a token fares the same in any longer batch with the same earlier tokens |
| CallerIdSpec.HandleChangedIffSomeStepChanged | src/modules/m_callerid.cpp:117-129 | the batch's flag (CMD_FAILURE) is set iff some token's AddAccept or RemoveAccept reported a change |
| CallerIdSpec.UnchangedBatchKeepsAcceptSet | src/modules/m_callerid.cpp:94-129 | a batch that returns CMD_SUCCESS leaves the invoker's accept set as it found it |
| CallerIdSpec.CapacityScenario | src/modules/m_callerid.cpp:143-185 | with maxaccepts 2: adding B and C succeeds; adding D gives exactly one ERR_ACCEPTFULL; removing B succeeds; adding D then succeeds, leaving {C, D} |
| CallerIdSpec.PreText | src/modules/m_callerid.cpp:242-269 | not +g, or an oper with operoverride: allow and change nothing; otherwise the recipient has a record with its set kept; block iff the recipient itself is not in its own set; allow changes nothing; a block writes ERR_TARGUMODEG (716) to the sender, and only when `now` is past lastnotify + cooldown also RPL_TARGNOTIFY (717) to the sender and RPL_UMODEGMSG (718) to the recipient, setting lastnotify to `now`; no lastnotify ever decreases |
| CallerIdSpec.AcceptedSenderStillBlocked | src/modules/m_callerid.cpp:250-255 | any +g recipient whose set holds the sender but not the recipient itself blocks that sender, unless an oper override applies |
| CallerIdSpec.SelfAcceptedLetsAllThrough | src/modules/m_callerid.cpp:250-268 | a +g recipient in its own set lets every sender through and changes nothing |
| CallerIdSpec.SecondBlockWithinCooldownIsThrottled | src/modules/m_callerid.cpp:255-266 | after a notifying block at t1, a block from any sender within the cooldown writes only ERR_TARGUMODEG and leaves lastnotify at t1 |
| CallerIdSpec.FirstBlockAtEpochIsThrottled | src/modules/m_callerid.cpp:250-266 | a recipient with no record, blocked at time 0 with cooldown 60, gets a record with lastnotify 0, and the sender gets ERR_TARGUMODEG only |
| CallerIdSpec.OnUserPreMessage | src/modules/m_callerid.cpp:271-285 | anything but a local sender writing to a user passes untouched; a message is blocked iff the sender is local, the target is a user, the recipient is +g, no oper override applies and the recipient is not in its own set; a local sender writing to a user gets exactly the table, numerics and verdict of `CallerIdSpec.PreText` (716 on every block, 717/718 and the lastnotify move once the cooldown has passed) |
| CallerIdSpec.OnCleanup | src/modules/m_callerid.cpp:287-295 | a non-user item changes nothing; a user item loses its record and nothing else changes |
| CallerIdSpec.OnUserPreNick | src/modules/m_callerid.cpp:297-302 | with tracknick nothing changes; the key set and every lastnotify are kept; without tracknick each listed user's set loses exactly the renaming user and nothing else; unlisted users are untouched |
| CallerIdSpec.OnUserQuit | src/modules/m_callerid.cpp:304-308 | the quitter's record is gone and the key set loses just the quitter; each listed user's set loses exactly the quitter and nothing else; every lastnotify is kept; unlisted users are untouched |
| CallerId.Server.GetData | src/modules/m_callerid.cpp:19-35 | the table and the result are those of `CallerIdSpec.GetData`; no numeric is written |
| CallerId.Server.RemoveData | src/modules/m_callerid.cpp:37-47 | the table becomes `CallerIdSpec.RemoveData` of the old one; no numeric is written |
| CallerId.Server.RemoveFromAllAccepts | src/modules/m_callerid.cpp:49-66 | the loop over the client list leaves the table `CallerIdSpec.RemoveFromAllAccepts` gives |
| CallerId.CommandAccept.constructor | src/modules/m_callerid.cpp:79-83 | the command shares the server and the accept limit |
| CallerId.CommandAccept.Handle | src/modules/m_callerid.cpp:90-130 | the loop over parameters, with the token loop of `HandleParameter` inside, leaves the table and numerics of `CallerIdSpec.HandleTokens` over `CallerIdSpec.Tokens`, and return CMD_FAILURE iff that batch reported a change |
| CallerId.CommandAccept.HandleParameter | src/modules/m_callerid.cpp:97-127 | the token loop over one parameter continues the batch by that parameter's comma-separated tokens, as `CallerIdSpec.HandleTokens` gives |
| CallerId.CommandAccept.HandleNextToken | src/modules/m_callerid.cpp:101-127 | one pass of the token loop extends the batch by one token in `CallerIdSpec.HandleTokens` |
| CallerId.CommandAccept.HandleToken | src/modules/m_callerid.cpp:103-126 | one token's dispatch has the effect and change flag of `CallerIdSpec.HandleToken` |
| CallerId.CommandAccept.ListAccept | src/modules/m_callerid.cpp:132-141 | writes exactly `CallerIdSpec.ListAccept` and leaves the table unchanged |
| CallerId.CommandAccept.WriteAcceptList | src/modules/m_callerid.cpp:137-138 | the loop writes `CallerIdSpec.Entries` for the given walk |
| CallerId.CommandAccept.AddAccept | src/modules/m_callerid.cpp:143-162 | table, numerics and result are those of `CallerIdSpec.AddAccept` |
| CallerId.CommandAccept.RemoveAccept | src/modules/m_callerid.cpp:164-185 | table, numerics and result are those of `CallerIdSpec.RemoveAccept` |
| CallerId.ModuleCallerId.constructor | src/modules/m_callerid.cpp:201-204 | the module holds the configuration read by OnRehash, and its new ACCEPT command holds the same limit |
| CallerId.ModuleCallerId.PreText | src/modules/m_callerid.cpp:242-269 | table, numerics and verdict are those of `CallerIdSpec.PreText` under the module's configuration |
| CallerId.ModuleCallerId.OnUserPreMessage | src/modules/m_callerid.cpp:271-277 | table, numerics and verdict are those of `CallerIdSpec.OnUserPreMessage` |
| CallerId.ModuleCallerId.OnUserPreNotice | src/modules/m_callerid.cpp:279-285 | a notice is gated exactly as a message: `CallerIdSpec.OnUserPreMessage` |
| CallerId.ModuleCallerId.OnCleanup | src/modules/m_callerid.cpp:287-295 | the table becomes `CallerIdSpec.OnCleanup` of the old one; no numeric is written |
| CallerId.ModuleCallerId.OnUserPreNick | src/modules/m_callerid.cpp:297-302 | the table becomes `CallerIdSpec.OnUserPreNick` of the old one, and the nick change is never refused (returns 0) |
| CallerId.ModuleCallerId.OnUserQuit | src/modules/m_callerid.cpp:304-308 | the table becomes `CallerIdSpec.OnUserQuit` of the old one; no numeric is written |

## Left out

- Module wiring is not modelled. This covers `AddCommand`/`AddMode` and their exception paths, `Modules->Attach`, the destructor, `GetVersion`, the `User_g` mode handler and `MODULE_INIT`. It is registration with the server framework.
- `On005Numeric` is not modelled. It only appends ` CALLERID=g` to the capability string.
- OnRehash and the configuration reader: the constructor takes the configuration as a value (`Config`, defaults in `DEFAULT_CONFIG`), and a rehash is not modelled.
  - So the command's limit cannot go stale or change while records exist. In the code, `CommandAccept` holds a reference to the module's `maxaccepts`.
- A numeric is modelled as its recipient, its code and what it is about. The text, and the nick, ident and host formatting, are not modelled.
- The `text`, `notice`, `status` and `exempt_list` parameters and the quit messages are unused by the code and are dropped.
- Ids stand for user addresses. The server's nick lookup is a `map<string, UserId>`. Local, oper and +g status and the target type are boolean or enumerated inputs. The client list walked by the sweeps is a `seq<UserId>` given by the caller. The current time is an input.
- An ordered set is walked in increasing id order, standing for the `std::set<User*>` pointer order.
- `irc::commasepstream` is taken as a plain split on ','. Its own handling of special characters is not part of this model.
- `time_t` is an unbounded integer, so `lastnotify + cooldown` cannot overflow in the model.
- Memory management is not modelled: the `new`/`delete` of records and the `Extend`/`Shrink` calls beyond the table update.
- `CallerIdSpec.RemoveData` takes "no extension" to mean no record. In the code the pointer is declared without an initial value and relies on `GetExt` to leave it null.
