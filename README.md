# Seen tracker for a group-chat bot

The bot replies to every text message in a group with a "mark as seen" button.
It records who pressed each message's button and answers `/seen <message_id>`
with the list of those people. This project models that bot's logic in Dafny:

- `strings.dfy` (module `Strings`): the Python string operations the bot uses.
  These are `startswith`, `split` on one character and `join`, with `Split`
  and `Join` proved to be inverses.
- `decimal.dfy` (module `Decimal`): Python's `str` on integers, and the part of
  `int(...)` the bot relies on (an optional sign and ASCII digits). A string
  `int` would reject gives an explicit `None`. `int(str(i)) == i` is proved.
- `app.dfy` (module `App`): the callback token `seen:<id>` and its decoding,
  the identity recorded for a presser, and the seen table. The table is a
  `map<int, set<string>>` field of the class `SeenTracker`, updated in place
  by `MarkSeen` and `HandleButton` and only read by `Query`. The module also
  holds the `/seen` reply choice with its texts, and the text-message handler
  `TrackMessage`, which builds the button and never touches the table.

Each handler is one atomic step. `TrackMessage` returns the prompt the bot
would send. `HandleButton` returns the outcome of a press: the answer text and
the set the edited message lists. `Query` returns which of the four `/seen`
replies applies. The reply texts are rendered from these results by
`ReplyText` and `EditText`. The chat API is left to the caller.

Python does not fix the order in which a set is enumerated, so the two texts
that join a set (`ReplyText` for a listing, `EditText`) take that order as a
parameter. `IsEnumeration` requires the parameter to list each member exactly
once. The properties are stated over membership and count, never over order.

The table is keyed by message id alone, as in `app.py`. Two chats with the
same message id therefore share one entry.

## Model

| member | source | states |
|---|---|---|
| `Strings.StartsWith` | app.py:46 | `data.startswith("seen:")` holds exactly when the data is the prefix followed by the rest |
| `Strings.Split` | app.py:47 | `str.split(':')` always yields at least one field, and no field contains the separator |
| `Strings.Join` | app.py:68 | `sep.join(parts)` is empty for no parts, starts with the first part, and puts the separator right after it when there are more; `JoinSplit` and `SplitJoin` make it the inverse of `Split` |
| `Strings.SplitNoSeparator` | app.py:47 | a string without the separator splits into itself alone |
| `Strings.SplitAtFirst` | app.py:47 | the first field ends at the first separator; the rest splits independently |
| `Strings.JoinSplit` | app.py:47 | joining the fields of a split with the separator restores the string |
| `Strings.SplitJoin` | app.py:68 | splitting a join of separator-free parts returns exactly those parts |
| `Decimal.NatToDecimal` | app.py:30 | `str(n)` of a non-negative id is a non-empty run of digits with no leading zero |
| `Decimal.IntToDecimal` | app.py:30 | `str(id)` holds no `:` or line break and starts with `-` exactly for negative ids |
| `Decimal.ParseInt` | app.py:61 | `int(s)` succeeds exactly on an optional sign followed by at least one ASCII digit |
| `Decimal.DigitsValueOfNatToDecimal` | app.py:30 | the digits of `str(n)` read back as `n` |
| `Decimal.ParseIntToDecimal` | app.py:47 | `int(str(i)) == i` for every integer |
| `App.EncodeToken` | app.py:30 | the callback data is `seen:` followed by the decimal id, so it passes the prefix test |
| `App.DecodeToken` | app.py:46-47 | data is ignored exactly when it lacks the `seen:` prefix |
| `App.TokenRoundTrip` | app.py:30 | the token built for a message decodes back to that message's id |
| `App.DecodeField` | app.py:46-47 | a `seen:` payload with no further `:` decodes to its integer when `int` accepts it, and is malformed (`ValueError`) exactly when `int` rejects it |
| `App.MalformedPayloads` | app.py:47 | `seen:`, `seen:x` and `seen:-` are the malformed case, where `int` in `app.py` raises |
| `App.DecodeIgnoresLaterFields` | app.py:47 | only the field after the first `:` is read; a further `:` and what follows are ignored |
| `App.Identity` | app.py:48 | the recorded identity is the username when it is present and non-empty, the full name otherwise |
| `App.Lookup` | app.py:66 | `.get(id, set())` holds exactly the entry's members, and no one for an unknown id |
| `App.Press` | app.py:48 | a press creates the entry if absent and adds the identity; every other entry is unchanged; no entry loses a member; no entry becomes empty |
| `App.ReplayMembers` | app.py:48 | after any run of presses, an identity is in a message's set exactly when it was there before or pressed that message |
| `App.ReplayGrows` | app.py:19 | presses never remove an entry or a member; entries exist exactly for pressed messages; no entry is ever empty |
| `App.RepeatedPressAbsorbed` | app.py:48 | repeating any earlier press (the one just made included) leaves the table unchanged, so pressing twice is pressing once |
| `App.SeenCommandReply` | app.py:54-70 | usage reply exactly when there is no argument; "Invalid message ID." exactly when the first argument does not parse; "no one yet" exactly when the id's set is empty or absent; otherwise a listing of exactly that set |
| `App.QueryAfterPresses` | app.py:66-70 | `/seen <id>` after a run of presses says "no one yet" exactly when nobody pressed that id, and otherwise lists exactly those who did |
| `App.TwoUserScenario` | app.py:46-70 | two users pressing message 100 are both listed by `/seen 100`, and `/seen 999` answers "no one yet" |
| `App.EnumerationSize` | app.py:68 | an enumeration of a set has exactly as many elements as the set |
| `App.Bullets` | app.py:68 | one line per enumerated identity, each `- ` followed by that identity (`ListingLines` gives the lines' meaning) |
| `App.ListingText` | app.py:68 | the listing starts with the header "These users have seen the message:" |
| `App.ReplyText` | app.py:56-70 | usage, invalid-id and "no one yet" replies are the fixed strings of `app.py`; a listing is never one of them; when the set is non-empty and no identity holds a line break, the listing's lines are the header and exactly one distinct `- u` line per member |
| `App.ListingIsNotFixedText` | app.py:67-70 | a listing, even an empty one, differs from each of the three fixed replies |
| `App.ListingLines` | app.py:68 | when no identity holds a line break, the listing's lines are the header and then exactly one distinct `- u` line per member, in any enumeration order |
| `App.EditText` | app.py:51 | the edited message starts with the "Seen by" prefix, and names the single member when there is one |
| `App.TrackMessage` | app.py:22-38 | no prompt for a missing message or a private chat, otherwise a reply to that message whose button token decodes to its id |
| `App.SeenTracker.constructor` | app.py:19 | the table starts empty |
| `App.SeenTracker.MarkSeen` | app.py:48 | the new table is the old one after one press, and no entry is empty |
| `App.SeenTracker.HandleButton` | app.py:41-51 | non-`seen:` data and an unparsable id leave the table unchanged, with no answer; otherwise one press of the presser's identity, acknowledged with the entry's new set |
| `App.SeenTracker.Query` | app.py:54-72 | the `/seen` reply for the current table, without changing it; "no one yet" means the id has no entry |

## Left out

- The chat-platform calls are not modelled: `send_message`, `query.answer`,
  `edit_message_text`, `reply_text`, the button objects and the application
  start-up. The handlers return the texts and values those calls would receive.
- Loading the bot token from the environment is I/O and is not modelled.
- `async`/`await` and event dispatch are not modelled. Each handler is one
  sequential step, so concurrent handlers are not modelled.
- Decimal.ParseInt: does not accept the surrounding whitespace, underscores
  between digits or non-ASCII digits that Python's `int` accepts. These inputs
  give `None` here.
- The order of names in the joined texts is a parameter, because Python's set
  order is unspecified.
- App.ListingLines: assumes no identity holds a line break, an assumption about
  the names the chat platform reports; with one, that name's line would split
  in two. `ReplyText` states the line structure under the same condition.
- App.EditText: states only the prefix and the one-member case. A name may
  itself contain `, `, so the joined list cannot be split back into names.
- Python's `ValueError` for payloads like `seen:` or `seen:x` is the result
  `Crashed`. The table is unchanged and no answer is produced. The exception
  itself is not modelled.
- Callback data that is `None` (Python would raise `AttributeError`) is not
  modelled; `data` is always a string here.
- The message filter that routes only non-command text to `TrackMessage` is the
  framework's and is not modelled.
