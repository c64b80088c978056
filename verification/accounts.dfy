/** The account-list parsing of the `add` command (bot.js:193-199): the
    option text is split on `,`, each piece is split on `:`, and the stored
    string is rebuilt from the first two fields as `email:password`. */
module Accounts {
  import opened Text

  /** How a template literal renders a missing destructured field. */
  const Undefined: string := "undefined"

  /** The stored form of one piece: `${email}:${password}` where
      `[email, password] = piece.split(":")`. Fields after the second are
      dropped, and a missing password renders as `undefined`. */
  function ParseEntry(piece: string): (stored: string)
    ensures CountChar(stored, ':') == 1
  {
    var fields := Split(piece, ':');
    var password := if |fields| >= 2 then fields[1] else Undefined;
    assert ':' !in Undefined;
    CountCharZero(fields[0], ':');
    CountCharZero(password, ':');
    CountCharAppend(fields[0] + ":", password, ':');
    CountCharAppend(fields[0], ":", ':');
    fields[0] + ":" + password
  }

  /** An independent reading of the same rule in terms of character
      positions: the email is the text before the first `:`, the password
      the text between the first and the second `:` (or to the end). */
  function EntryByPosition(piece: string): string
  {
    match IndexOf(piece, ':')
    case None => piece + ":" + Undefined
    case Some(i) =>
      var after := piece[i + 1..];
      var password := match IndexOf(after, ':')
        case None => after
        case Some(j) => after[..j];
      piece[..i] + ":" + password
  }

  lemma ParseEntryByPosition(piece: string)
    ensures ParseEntry(piece) == EntryByPosition(piece)
  {
    match IndexOf(piece, ':')
    case None =>
    case Some(i) =>
      var after := piece[i + 1..];
      assert piece == piece[..i] + [':'] + after;
      SplitAfterPrefix(piece[..i], ':', after);
      match IndexOf(after, ':')
      case None =>
      case Some(j) =>
        assert after == after[..j] + [':'] + after[j + 1..];
        SplitAfterPrefix(after[..j], ':', after[j + 1..]);
  }

  /** A well-formed `email:password` piece is stored verbatim. */
  lemma ParseEntryOneColon(piece: string)
    requires CountChar(piece, ':') == 1
    ensures ParseEntry(piece) == piece
  {
  }

  /** A piece without `:` is stored with the literal password `undefined`. */
  lemma ParseEntryNoColon(piece: string)
    requires ':' !in piece
    ensures ParseEntry(piece) == piece + ":undefined"
  {
  }

  /** Text after a second `:` is dropped: `a:b:c` is stored as `a:b`. */
  lemma ParseEntryDropsThirdField(email: string, password: string, rest: string)
    requires ':' !in email && ':' !in password
    ensures ParseEntry(email + ":" + password + ":" + rest) == email + ":" + password
  {
    assert email + ":" + password + ":" + rest == email + [':'] + (password + [':'] + rest);
    SplitAfterPrefix(email, ':', password + [':'] + rest);
    SplitAfterPrefix(password, ':', rest);
  }

  lemma EntriesByPosition(pieces: seq<string>)
    ensures forall i :: 0 <= i < |pieces| ==> ParseEntry(pieces[i]) == EntryByPosition(pieces[i])
  {
    forall i | 0 <= i < |pieces|
      ensures ParseEntry(pieces[i]) == EntryByPosition(pieces[i])
    {
      ParseEntryByPosition(pieces[i]);
    }
  }

  /** The entries `add` inserts for the `accounts` option text, one per
      comma-separated piece, in order. */
  function ParseAccounts(text: string): (entries: seq<string>)
    ensures |entries| == CountChar(text, ',') + 1
    ensures forall i :: 0 <= i < |entries| ==> CountChar(entries[i], ':') == 1
    ensures forall i :: 0 <= i < |entries| ==> entries[i] == EntryByPosition(Split(text, ',')[i])
  {
    var pieces := Split(text, ',');
    EntriesByPosition(pieces);
    seq(|pieces|, i requires 0 <= i < |pieces| => ParseEntry(pieces[i]))
  }

  /** When every piece is stored verbatim, the entries are the pieces. */
  lemma ParseAccountsVerbatim(text: string)
    requires forall i :: 0 <= i < |Split(text, ',')| ==> ParseEntry(Split(text, ',')[i]) == Split(text, ',')[i]
    ensures ParseAccounts(text) == Split(text, ',')
  {
  }

  /** An empty option text still yields one entry, `:undefined`. */
  lemma EmptyTextOneEntry()
    ensures ParseAccounts("") == [":undefined"]
  {
    assert Split("", ',') == [""];
    ParseEntryNoColon("");
    assert "" + ":undefined" == ":undefined";
    var entries := ParseAccounts("");
    assert entries[0] == ParseEntry("");
  }

  /** Parsing the comma-join of well-formed `email:password` entries gives
      the entries back: the list format round-trips. */
  lemma ParseAccountsRoundTrip(list: seq<string>)
    requires |list| >= 1
    requires forall i :: 0 <= i < |list| ==> ',' !in list[i] && CountChar(list[i], ':') == 1
    ensures ParseAccounts(Join(list, ',')) == list
  {
    var text := Join(list, ',');
    SplitJoin(list, ',');
    forall i | 0 <= i < |list|
      ensures ParseEntry(list[i]) == list[i]
    {
      ParseEntryOneColon(list[i]);
    }
    ParseAccountsVerbatim(text);
  }
}
