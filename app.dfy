/** The "mark as seen" bot: the callback token attached to each group message,
    the table from message id to the identities that pressed the button, the
    button handler that fills it and the `/seen <message_id>` command that
    reads it. Chat I/O is left to the caller: handlers return what the bot
    would send, and the reply texts are rendered from those results. */
module App {
  import opened Strings
  import opened Decimal

  // ---------------------------------------------------------------------------
  // Callback token

  const SeenPrefix := "seen:"

  /** The button's callback data for a message: `seen:` and the decimal id. */
  function EncodeToken(messageId: int): (token: string)
    ensures StartsWith(token, SeenPrefix)
    ensures |token| > |SeenPrefix|
  {
    SeenPrefix + IntToDecimal(messageId)
  }

  /** What the button handler makes of callback data: not ours, ours but with
      an id Python's `int` rejects (`ValueError`), or ours with an id. */
  datatype Decoded = NotSeen | Malformed | SeenId(messageId: int)

  /** The prefix test, then the second `:`-separated field read as an integer. */
  function DecodeToken(data: string): (d: Decoded)
    ensures d.NotSeen? <==> !StartsWith(data, SeenPrefix)
  {
    if !StartsWith(data, SeenPrefix) then NotSeen
    else
      assert data == "seen" + [':'] + data[|SeenPrefix|..];
      SplitAtFirst("seen", ':', data[|SeenPrefix|..]);
      match ParseInt(Split(data, ':')[1])
      case None => Malformed
      case Some(id) => SeenId(id)
  }

  /** The token built for a message decodes to that message's id. */
  lemma TokenRoundTrip(messageId: int)
    ensures DecodeToken(EncodeToken(messageId)) == SeenId(messageId)
  {
    var digits := IntToDecimal(messageId);
    assert EncodeToken(messageId) == "seen" + [':'] + digits;
    SplitAtFirst("seen", ':', digits);
    SplitNoSeparator(digits, ':');
    ParseIntToDecimal(messageId);
  }

  /** A `seen:` payload without a further `:` decodes to its integer when
      Python's `int` accepts it, and is malformed (`ValueError`) otherwise. */
  lemma DecodeField(field: string)
    requires ':' !in field
    ensures DecodeToken(SeenPrefix + field).Malformed? <==> !IsIntLiteral(field)
    ensures ParseInt(field).Some? ==> DecodeToken(SeenPrefix + field) == SeenId(ParseInt(field).value)
  {
    var data := SeenPrefix + field;
    assert data == "seen" + [':'] + field;
    assert data[..|SeenPrefix|] == SeenPrefix;
    SplitAtFirst("seen", ':', field);
    SplitNoSeparator(field, ':');
  }

  /** The payloads on which `int` in `app.py` raises: an empty id, a
      non-numeric id and a lone sign. */
  lemma MalformedPayloads()
    ensures DecodeToken("seen:") == Malformed
    ensures DecodeToken("seen:x") == Malformed
    ensures DecodeToken("seen:-") == Malformed
  {
  }

  /** Only the field between the first and second `:` is read: anything after
      a further `:` is ignored. */
  lemma {:induction false} DecodeIgnoresLaterFields(field: string, rest: string)
    requires ':' !in field
    ensures DecodeToken(SeenPrefix + field + [':'] + rest) == DecodeToken(SeenPrefix + field)
  {
    var long, short := SeenPrefix + field + [':'] + rest, SeenPrefix + field;
    assert long == "seen" + [':'] + (field + [':'] + rest);
    assert short == "seen" + [':'] + field;
    assert long[..|SeenPrefix|] == SeenPrefix && short[..|SeenPrefix|] == SeenPrefix;
    SplitAtFirst("seen", ':', field + [':'] + rest);
    SplitAtFirst(field, ':', rest);
    SplitAtFirst("seen", ':', field);
    SplitNoSeparator(field, ':');
  }

  // ---------------------------------------------------------------------------
  // Who pressed

  /** The pressing user as the chat platform reports it; `username` is
      optional on the platform. */
  datatype User = User(username: Option<string>, fullName: string)

  /** `user.username or user.full_name`: a missing or empty username falls back
      to the full name. */
  function Identity(u: User): (who: string)
    ensures u.username.Some? && u.username.value != "" ==> who == u.username.value
    ensures u.username.None? || u.username.value == "" ==> who == u.fullName
  {
    match u.username
    case Some(name) => if name != "" then name else u.fullName
    case None => u.fullName
  }

  // ---------------------------------------------------------------------------
  // The seen table as a value

  /** Message id to the identities that marked it as seen. */
  type Table = map<int, set<string>>

  /** `table.get(id, set())`: the entry's members, or none for an unknown id. */
  function Lookup(t: Table, id: int): (users: set<string>)
    ensures forall who :: who in users <==> id in t && who in t[id]
  {
    if id in t then t[id] else {}
  }

  /** Every entry present was created by a press, so none is empty. */
  ghost predicate NoEmptyEntries(t: Table)
  {
    forall k :: k in t ==> t[k] != {}
  }

  /** `table[id].add(who)` on a `defaultdict(set)`: the entry is created if
      absent, gains `who`, and no other entry changes. */
  function Press(t: Table, id: int, who: string): (t': Table)
    ensures t'.Keys == t.Keys + {id}
    ensures id in t' && t'[id] == Lookup(t, id) + {who}
    ensures forall k :: k in t && k != id ==> t'[k] == t[k]
    ensures forall k :: k in t ==> t[k] <= t'[k]
    ensures NoEmptyEntries(t) ==> NoEmptyEntries(t')
  {
    t[id := Lookup(t, id) + {who}]
  }

  /** The table after a run of presses, oldest first. */
  function Replay(t: Table, presses: seq<(int, string)>): Table
    decreases |presses|
  {
    if |presses| == 0 then t
    else
      var last := presses[|presses| - 1];
      Press(Replay(t, presses[..|presses| - 1]), last.0, last.1)
  }

  /** After a run of presses, an identity is recorded for a message exactly
      when it was recorded before or pressed that message's button. */
  lemma {:induction false} ReplayMembers(t: Table, presses: seq<(int, string)>, id: int, who: string)
    ensures who in Lookup(Replay(t, presses), id) <==> who in Lookup(t, id) || (id, who) in presses
    decreases |presses|
  {
    if |presses| > 0 {
      var init := presses[..|presses| - 1];
      ReplayMembers(t, init, id, who);
      assert presses == init + [presses[|presses| - 1]];
    }
  }

  /** A run of presses keeps every entry and every identity in it, and adds
      an entry exactly for the pressed messages. */
  lemma {:induction false} ReplayGrows(t: Table, presses: seq<(int, string)>)
    ensures forall k :: k in t ==> k in Replay(t, presses) && t[k] <= Replay(t, presses)[k]
    ensures forall k :: k in Replay(t, presses) <==> k in t || exists p :: p in presses && p.0 == k
    ensures NoEmptyEntries(t) ==> NoEmptyEntries(Replay(t, presses))
    decreases |presses|
  {
    if |presses| > 0 {
      var init := presses[..|presses| - 1];
      var last := presses[|presses| - 1];
      ReplayGrows(t, init);
      assert presses == init + [last];
      forall k | k in Replay(t, presses)
        ensures k in t || exists p :: p in presses && p.0 == k
      {
        if k != last.0 {
          assert k in Replay(t, init);
          if k !in t {
            var p :| p in init && p.0 == k;
            assert p in presses;
          }
        }
      }
    }
  }

  /** Repeating any earlier press, for instance the one just made, leaves the
      table as it was: pressing twice is pressing once. */
  lemma RepeatedPressAbsorbed(t: Table, presses: seq<(int, string)>, p: (int, string))
    requires p in presses
    ensures Replay(t, presses + [p]) == Replay(t, presses)
  {
    var before := Replay(t, presses);
    ReplayMembers(t, presses, p.0, p.1);
    assert (presses + [p])[..|presses|] == presses;
    assert Lookup(before, p.0) + {p.1} == Lookup(before, p.0);
  }

  // ---------------------------------------------------------------------------
  // The /seen command

  /** The four replies of `/seen`; a listing carries the set it enumerates. */
  datatype SeenReply = Usage | InvalidId | NoOneYet | Listed(users: set<string>)

  /** The reply `/seen` gives for its arguments against a table. */
  function SeenCommandReply(args: seq<string>, t: Table): (r: SeenReply)
    ensures r == Usage <==> |args| == 0
    ensures r == InvalidId <==> |args| > 0 && ParseInt(args[0]).None?
    ensures r == NoOneYet <==> |args| > 0 && ParseInt(args[0]).Some? && Lookup(t, ParseInt(args[0]).value) == {}
    ensures r.Listed? ==> |args| > 0 && ParseInt(args[0]).Some? && r.users == Lookup(t, ParseInt(args[0]).value)
  {
    if |args| == 0 then Usage
    else match ParseInt(args[0])
      case None => InvalidId
      case Some(id) =>
        var users := Lookup(t, id);
        if users != {} then Listed(users) else NoOneYet
  }

  /** Querying a message's numeral after a run of presses on an empty table:
      "no one yet" exactly when nobody pressed that message's button, and
      otherwise a listing of exactly the identities that did. */
  lemma QueryAfterPresses(presses: seq<(int, string)>, id: int)
    ensures var r := SeenCommandReply([IntToDecimal(id)], Replay(map[], presses));
      && (r.NoOneYet? || r.Listed?)
      && (r.NoOneYet? <==> forall p :: p in presses ==> p.0 != id)
      && (r.Listed? ==> forall u :: u in r.users <==> (id, u) in presses)
  {
    ParseIntToDecimal(id);
    var t := Replay(map[], presses);
    var r := SeenCommandReply([IntToDecimal(id)], t);
    forall u ensures u in Lookup(t, id) <==> (id, u) in presses {
      ReplayMembers(map[], presses, id, u);
    }
    if p :| p in presses && p.0 == id {
      assert p.1 in Lookup(t, id);
    }
  }

  /** Two users press the button on message 100: `/seen 100` lists both of
      them, and `/seen 999` says no one has seen it. */
  lemma TwoUserScenario(a: User, b: User)
    ensures var t := Replay(map[], [(100, Identity(a)), (100, Identity(b))]);
      && SeenCommandReply(["100"], t) == Listed({Identity(a), Identity(b)})
      && SeenCommandReply(["999"], t) == NoOneYet
  {
    var t := Replay(map[], [(100, Identity(a)), (100, Identity(b))]);
    var first := [(100, Identity(a))];
    assert [(100, Identity(a)), (100, Identity(b))][..1] == first;
    var empty: Table := map[];
    assert first[..0] == [];
    var t1 := Replay(empty, first);
    assert Replay(empty, first[..0]) == empty;
    assert first[0].0 == 100 && first[0].1 == Identity(a);
    assert t1 == Press(Replay(empty, first[..0]), first[0].0, first[0].1);
    assert t1 == Press(empty, 100, Identity(a));
    assert t == Press(t1, 100, Identity(b));
    assert ParseInt("100") == Some(100) by {
      assert "100"[..2] == "10" && "10"[..1] == "1" && "1"[..0] == "";
      assert DigitsValue("1") == 1;
      assert DigitsValue("10") == 10;
      assert DigitsValue("100") == 100;
    }
    assert ParseInt("999") == Some(999) by {
      assert "999"[..2] == "99" && "99"[..1] == "9" && "9"[..0] == "";
      assert DigitsValue("9") == 9;
      assert DigitsValue("99") == 99;
      assert DigitsValue("999") == 999;
    }
    assert Lookup(t, 100) == {Identity(a), Identity(b)};
    assert 999 !in t;
  }

  // ---------------------------------------------------------------------------
  // Reply texts

  // Written in two pieces only so that the verifier can read its first
  // character; the string is the one the command replies with.
  const UsageText := "Please provide a message ID: " + "/seen <message_id>"
  const InvalidIdText := "Invalid message ID."
  const NoOneYetText := "No one has marked this message as seen yet."
  const ListingHeader := "These users have seen the message:"

  /** No element of `s` occurs twice. */
  ghost predicate Distinct(s: seq<string>)
  {
    forall i, j :: 0 <= i < j < |s| ==> s[i] != s[j]
  }

  /** `order` is one order in which a set's members may be enumerated: each
      member exactly once. Python leaves the order of a set unspecified, so
      the texts below take it as a parameter. */
  ghost predicate IsEnumeration(order: seq<string>, s: set<string>)
  {
    Distinct(order) && forall u :: u in order <==> u in s
  }

  /** An enumeration has as many elements as the set. */
  lemma {:induction false} EnumerationSize(order: seq<string>, s: set<string>)
    requires IsEnumeration(order, s)
    ensures |order| == |s|
    decreases |order|
  {
    if |order| > 0 {
      var rest := s - {order[0]};
      forall u ensures u in order[1..] <==> u in rest {
        if u in order[1..] {
          var j :| 1 <= j < |order| && order[j] == u;
        }
        if u in rest {
          var j :| 0 <= j < |order| && order[j] == u;
          assert j != 0;
          assert order[1..][j - 1] == u;
        }
      }
      EnumerationSize(order[1..], rest);
    }
  }

  /** One `- u` line per enumerated identity, in the enumeration's order. */
  function Bullets(order: seq<string>): (lines: seq<string>)
    ensures |lines| == |order|
    ensures forall i :: 0 <= i < |lines| ==> StartsWith(lines[i], "- ") && lines[i][2..] == order[i]
  {
    seq(|order|, i requires 0 <= i < |order| => "- " + order[i])
  }

  /** The listing: the header line, then the bullet lines. */
  function ListingText(order: seq<string>): (text: string)
    ensures StartsWith(text, ListingHeader)
  {
    ListingHeader + "\n" + Join(Bullets(order), "\n")
  }

  /** The text `/seen` replies with, for a given enumeration of a listing. */
  function ReplyText(r: SeenReply, order: seq<string>): (text: string)
    requires r.Listed? ==> IsEnumeration(order, r.users)
    ensures r == Usage ==> text == "Please provide a message ID: /seen <message_id>"
    ensures r == InvalidId ==> text == "Invalid message ID."
    ensures r == NoOneYet ==> text == "No one has marked this message as seen yet."
    ensures r.Listed? ==> text != UsageText && text != InvalidIdText && text != NoOneYetText
    ensures r.Listed? && r.users != {} && (forall u :: u in r.users ==> '\n' !in u) ==>
      var lines := Split(text, '\n');
      && |lines| == |r.users| + 1
      && lines[0] == ListingHeader
      && Distinct(lines[1..])
      && forall u :: u in r.users <==> "- " + u in lines[1..]
  {
    match r
    case Usage => UsageText
    case InvalidId => InvalidIdText
    case NoOneYet => NoOneYetText
    case Listed(users) =>
      ListingIsNotFixedText(order);
      // Both arms give the same text; the first also calls ListingLines,
      // whose requires hold only there, to prove the line-structure ensures.
      if users != {} && (forall u :: u in users ==> '\n' !in u) then
        ListingLines(users, order);
        ListingText(order)
      else ListingText(order)
  }

  /** A listing, even of no one, is never one of the three fixed replies. */
  lemma ListingIsNotFixedText(order: seq<string>)
    ensures ListingText(order) != UsageText
    ensures ListingText(order) != InvalidIdText
    ensures ListingText(order) != NoOneYetText
  {
    var text := ListingText(order);
    assert text[0] == ListingHeader[0] == 'T';
    assert UsageText[0] == 'P';
    assert InvalidIdText[0] == 'I';
    assert NoOneYetText[0] == 'N';
  }

  /** A listing is the header line followed by exactly one `- u` line per
      identity in the set, whatever the enumeration order, provided no
      identity holds a line break. */
  lemma ListingLines(users: set<string>, order: seq<string>)
    requires users != {} && IsEnumeration(order, users)
    requires forall u :: u in users ==> '\n' !in u
    ensures var lines := Split(ListingText(order), '\n');
      && |lines| == |users| + 1
      && lines[0] == ListingHeader
      && Distinct(lines[1..])
      && forall u :: u in users <==> "- " + u in lines[1..]
  {
    EnumerationSize(order, users);
    var bullets := Bullets(order);
    var parts := [ListingHeader] + bullets;
    forall i | 0 <= i < |parts| ensures '\n' !in parts[i] {
      if i > 0 {
        assert order[i - 1] in users;
        assert parts[i] == "- " + order[i - 1];
      }
    }
    SplitJoin(parts, '\n');
    assert parts[1..] == bullets;
    forall i, j | 0 <= i < j < |bullets| ensures bullets[i] != bullets[j] {
      assert bullets[i][2..] == order[i] && bullets[j][2..] == order[j];
    }
    forall u ensures u in users <==> "- " + u in bullets {
      if u in users {
        var i :| 0 <= i < |order| && order[i] == u;
        assert bullets[i] == "- " + u;
      }
      if "- " + u in bullets {
        var i :| 0 <= i < |bullets| && bullets[i] == "- " + u;
        assert bullets[i][2..] == u;
        assert order[i] == u;
      }
    }
  }

  // ---------------------------------------------------------------------------
  // The button handler's replies

  const AnswerText := "You marked this as seen."
  const SeenByPrefix := "\U{1F440} Seen by: "

  /** Outcome of a button press: ignored (not a `seen:` token), failed with
      Python's `ValueError` before anything changed, or acknowledged with the
      answer shown to the presser and the set the edited message lists. */
  datatype ButtonResult = Ignored | Crashed | Acknowledged(answer: string, seenBy: set<string>)

  /** The edited message text, for a given enumeration of the set. */
  function EditText(users: set<string>, order: seq<string>): (text: string)
    requires IsEnumeration(order, users)
    ensures StartsWith(text, SeenByPrefix)
    ensures |users| == 1 ==> text == SeenByPrefix + order[0]
  {
    EnumerationSize(order, users);
    SeenByPrefix + Join(order, ", ")
  }

  // ---------------------------------------------------------------------------
  // Group messages get a button

  datatype Chat = Chat(id: int, kind: string)
  datatype Message = Message(messageId: int, chat: Chat)

  /** What the bot sends in answer to a group message: a reply to it carrying
      the "mark as seen" button. */
  datatype Prompt = Prompt(chatId: int, replyTo: int, text: string, buttonLabel: string, callbackData: string)

  const PromptText := "Tap below to mark this message as seen."
  const ButtonLabel := "\U{1F440} Mark as Seen"

  /** The text-message handler: nothing for a missing message or a private
      chat, otherwise a prompt whose button decodes back to the message. It
      does not touch the seen table. */
  function TrackMessage(m: Option<Message>): (p: Option<Prompt>)
    ensures p.None? <==> m.None? || m.value.chat.kind == "private"
    ensures p.Some? ==> && p.value.chatId == m.value.chat.id
                        && p.value.replyTo == m.value.messageId
                        && DecodeToken(p.value.callbackData) == SeenId(m.value.messageId)
  {
    match m
    case None => None
    case Some(msg) =>
      if msg.chat.kind == "private" then None
      else
        TokenRoundTrip(msg.messageId);
        Some(Prompt(msg.chat.id, msg.messageId, PromptText, ButtonLabel, EncodeToken(msg.messageId)))
  }

  // ---------------------------------------------------------------------------
  // The process-wide seen table

  /** `seen_tracker`: the one table, updated in place by button presses. */
  class SeenTracker {
    var table: Table

    ghost predicate Valid()
      reads this
    {
      NoEmptyEntries(table)
    }

    constructor ()
      ensures Valid() && table == map[]
    {
      table := map[];
    }

    /** Records that `who` has seen message `id`. */
    method MarkSeen(id: int, who: string)
      requires Valid()
      modifies this
      ensures Valid()
      ensures table == Press(old(table), id, who)
    {
      var users := if id in table then table[id] else {};
      table := table[id := users + {who}];
    }

    /** The callback-query handler. */
    method HandleButton(data: string, user: User) returns (r: ButtonResult)
      requires Valid()
      modifies this
      ensures Valid()
      ensures match DecodeToken(data)
        case NotSeen => r == Ignored && table == old(table)
        case Malformed => r == Crashed && table == old(table)
        case SeenId(id) =>
          && table == Press(old(table), id, Identity(user))
          && r == Acknowledged(AnswerText, table[id])
    {
      match DecodeToken(data)
      case NotSeen =>
        r := Ignored;
      case Malformed =>
        r := Crashed;
      case SeenId(id) =>
        MarkSeen(id, Identity(user));
        r := Acknowledged(AnswerText, table[id]);
    }

    /** The `/seen` command handler: it reads the table and never changes it;
        "no one yet" means no entry at all, since entries are never empty. */
    method Query(args: seq<string>) returns (reply: SeenReply)
      requires Valid()
      ensures reply == SeenCommandReply(args, table)
      ensures reply == NoOneYet ==> ParseInt(args[0]).value !in table
    {
      if |args| == 0 {
        return Usage;
      }
      match ParseInt(args[0])
      case None =>
        reply := InvalidId;
      case Some(id) =>
        var users := if id in table then table[id] else {};
        if users != {} {
          reply := Listed(users);
        } else {
          reply := NoOneYet;
        }
    }
  }
}
