/**
 * The data helpers of the administrator screen, client/src/screens/Admin.tsx:
 * the CEF log-line parser, the banned-user test, the four search filters
 * and the order in which the log view lists dates and lines. The React
 * state and the button handlers around them are not modelled.
 */
module AdminScreen {
  import opened Wrappers
  import opened Strings

  // ---------------------------------------------------------------------
  // parseCefLog
  // ---------------------------------------------------------------------

  /** One row of the log table; a field the line does not have is `undefined` (None). */
  datatype CefRow = CefRow(date: string, action: Option<string>, message: Option<string>,
                           severity: Option<string>, user: Option<string>)

  /** `parts[i]`, or `undefined` past the end. */
  function At(parts: seq<string>, i: nat): (r: Option<string>)
    ensures r.Some? <==> i < |parts|
    ensures r.Some? ==> r.value == parts[i]
  {
    if i < |parts| then Some(parts[i]) else None
  }

  function Min(a: int, b: int): int { if a <= b then a else b }

  /**
   * parseCefLog. The date is the first three space-separated words of the
   * text before the first `|`; action, message and severity are the
   * `|`-fields 4, 5 and 6 (the CEF header's Signature ID, Name and
   * Severity); the user is what follows the first `=` of the line's last
   * space-separated word, up to the next `=`.
   */
  function ParseCefLog(log: string): (r: CefRow)
    ensures r.date <= log
    ensures r.action.Some? <==> Count(log, '|') >= 4
    ensures r.severity.Some? <==> Count(log, '|') >= 6
  {
    var fields := Split(log, '|');
    CefRow(CefDate(log), At(fields, 4), At(fields, 5), At(fields, 6), CefUser(log))
  }

  /** The date column: the first three words before the first `|`, joined by spaces. */
  function CefDate(log: string): (date: string)
    ensures date <= log
  {
    var fields := Split(log, '|');
    var words := Split(fields[0], ' ');
    DateIsPrefix(log, fields, words);
    Join(words[..Min(3, |words|)], ' ')
  }

  /** The user column: the second `=`-piece of the last space-separated word. */
  function CefUser(log: string): Option<string>
  {
    var tokens := Split(log, ' ');
    At(Split(tokens[|tokens| - 1], '='), 1)
  }

  /** The first three words of the first field are a prefix of the line. */
  lemma DateIsPrefix(log: string, fields: seq<string>, words: seq<string>)
    requires fields == Split(log, '|') && words == Split(fields[0], ' ')
    ensures Join(words[..Min(3, |words|)], ' ') <= log
  {
    JoinSplit(log, '|');
    JoinPrefix(fields, 1, '|');
    assert fields[..1] == [fields[0]];
    JoinSplit(fields[0], ' ');
    JoinPrefix(words, Min(3, |words|), ' ');
  }

  /** When the first field has at least three words, the date splits back into exactly them. */
  lemma DateWords(log: string)
    requires |Split(Split(log, '|')[0], ' ')| >= 3
    ensures Split(ParseCefLog(log).date, ' ') == Split(Split(log, '|')[0], ' ')[..3]
  {
    var words := Split(Split(log, '|')[0], ' ');
    SplitJoin(words[..3], ' ');
  }

  /** A line in the layout the server's CEF logger writes, ending in a `suser=` extension. */
  function CefLine(dateWords: seq<string>, restWords: seq<string>, headers: seq<string>,
                   extension: seq<string>, user: string): string
  {
    Join([Join(dateWords + restWords, ' ')] + headers + [Join(extension + ["suser=" + user], ' ')], '|')
  }

  /** No piece contains `c`. */
  predicate Avoid(parts: seq<string>, c: char)
  {
    forall i :: 0 <= i < |parts| ==> c !in parts[i]
  }

  /** The `|`-fields of a well-formed line are the pieces it was joined from. */
  lemma CefFields(head: string, headers: seq<string>, ext: string)
    requires '|' !in head && Avoid(headers, '|') && '|' !in ext
    ensures Split(Join([head] + headers + [ext], '|'), '|') == [head] + headers + [ext]
  {
    var parts := [head] + headers + [ext];
    assert Avoid(parts, '|');
    SplitJoin(parts, '|');
  }

  /** The last space-separated word of a well-formed line is its `suser=` extension. */
  lemma CefLastWord(fields: seq<string>, extension: seq<string>, last: string)
    requires |fields| >= 1 && |extension| >= 1 && ' ' !in last
    ensures var tokens := Split(Join(fields + [Join(extension + [last], ' ')], '|'), ' ');
            tokens[|tokens| - 1] == last
  {
    JoinSnoc(fields, Join(extension + [last], ' '), '|');
    JoinSnoc(extension, last, ' ');
    var before := Join(fields, '|') + ['|'] + Join(extension, ' ');
    assert Join(fields + [Join(extension + [last], ' ')], '|') == before + [' '] + last;
    SplitSnoc(before, last, ' ');
  }

  /** The user name follows the `=` of `suser=`. */
  lemma SuserValue(user: string)
    requires '=' !in user
    ensures Split("suser=" + user, '=')[1] == user
  {
    assert "suser=" + user == "suser" + ['='] + user;
    SplitCons("suser", user, '=');
    SplitNoSeparator(user, '=');
  }

  /** Well-formed pieces: no piece breaks the fields or the words apart. */
  predicate WellFormedLine(dateWords: seq<string>, restWords: seq<string>, headers: seq<string>,
                           extension: seq<string>, user: string)
  {
    && |dateWords| == 3 && |headers| == 6 && |extension| >= 1
    && Avoid(dateWords + restWords, ' ') && Avoid(dateWords + restWords, '|')
    && Avoid(headers, '|') && Avoid(extension, '|') && Avoid(extension, ' ')
    && '|' !in user && ' ' !in user && '=' !in user
  }

  /** The `|`-fields of a well-formed line. */
  lemma CefLineFields(dateWords: seq<string>, restWords: seq<string>, headers: seq<string>,
                      extension: seq<string>, user: string)
    requires WellFormedLine(dateWords, restWords, headers, extension, user)
    ensures Split(CefLine(dateWords, restWords, headers, extension, user), '|')
            == [Join(dateWords + restWords, ' ')] + headers + [Join(extension + ["suser=" + user], ' ')]
  {
    var last := "suser=" + user;
    JoinAvoids(dateWords + restWords, ' ', '|');
    assert Avoid(extension + [last], '|');
    JoinAvoids(extension + [last], ' ', '|');
    CefFields(Join(dateWords + restWords, ' '), headers, Join(extension + [last], ' '));
  }

  /** The user column of a well-formed line. */
  lemma CefLineUser(dateWords: seq<string>, restWords: seq<string>, headers: seq<string>,
                    extension: seq<string>, user: string)
    requires WellFormedLine(dateWords, restWords, headers, extension, user)
    ensures CefUser(CefLine(dateWords, restWords, headers, extension, user)) == Some(user)
  {
    CefLastWord([Join(dateWords + restWords, ' ')] + headers, extension, "suser=" + user);
    SuserValue(user);
  }

  /**
   * Parsing a well-formed line gives back what was written into it: the
   * three date words, the header's Signature ID, Name and Severity, and the
   * user.
   */
  lemma {:induction false} CefRoundTrip(dateWords: seq<string>, restWords: seq<string>, headers: seq<string>,
                                        extension: seq<string>, user: string)
    requires WellFormedLine(dateWords, restWords, headers, extension, user)
    ensures ParseCefLog(CefLine(dateWords, restWords, headers, extension, user))
            == CefRow(Join(dateWords, ' '), Some(headers[3]), Some(headers[4]), Some(headers[5]), Some(user))
  {
    var line := CefLine(dateWords, restWords, headers, extension, user);
    var words := dateWords + restWords;
    CefLineFields(dateWords, restWords, headers, extension, user);
    assert words[..3] == dateWords;
    CefDateOf(line, words, dateWords);
    CefLineUser(dateWords, restWords, headers, extension, user);
  }

  /** The date of a line whose first field is the given words. */
  lemma CefDateOf(line: string, words: seq<string>, dateWords: seq<string>)
    requires |words| >= 3 && words[..3] == dateWords
    requires Avoid(words, ' ')
    requires Split(line, '|')[0] == Join(words, ' ')
    ensures CefDate(line) == Join(dateWords, ' ')
  {
    SplitJoin(words, ' ');
  }

  // ---------------------------------------------------------------------
  // isUserBanned and the filters
  // ---------------------------------------------------------------------

  datatype UserEntry = UserEntry(id: string, username: string)
  datatype BannedEntry = BannedEntry(userId: string, username: string)
  datatype VmEntry = VmEntry(iso: string)
  datatype PendingEntry = PendingEntry(username: string)

  /** isUserBanned: some banned entry carries this user id. */
  function IsUserBanned(banned: seq<BannedEntry>, userId: string): (b: bool)
    ensures b <==> exists i :: 0 <= i < |banned| && banned[i].userId == userId
  {
    if |banned| == 0 then false
    else banned[0].userId == userId || (assert forall i :: 1 <= i < |banned| ==> banned[i] == banned[1..][i - 1];
                                       IsUserBanned(banned[1..], userId))
  }

  /** `s.filter(keep)`: the elements that pass; the contract states membership, not order. */
  function Filter<T(!new)>(s: seq<T>, keep: T -> bool): (r: seq<T>)
    ensures |r| <= |s|
    ensures forall x :: x in r <==> x in s && keep(x)
  {
    if |s| == 0 then []
    else
      var rest := Filter(s[1..], keep);
      assert forall x :: x in s <==> x == s[0] || x in s[1..];
      if keep(s[0]) then [s[0]] + rest else rest
  }

  /** The case-insensitive substring test every search box uses. */
  predicate Matches(text: string, query: string)
  {
    Includes(ToLower(text), ToLower(query))
  }

  /** A user is listed when its name matches the search and it is not banned. */
  function FilteredUsers(users: seq<UserEntry>, banned: seq<BannedEntry>, query: string): (r: seq<UserEntry>)
    ensures forall u :: u in r <==> u in users && Matches(u.username, query) && !IsUserBanned(banned, u.id)
  {
    Filter(users, (u: UserEntry) => Matches(u.username, query) && !IsUserBanned(banned, u.id))
  }

  function FilteredVms(vms: seq<VmEntry>, query: string): (r: seq<VmEntry>)
    ensures forall v :: v in r <==> v in vms && Matches(v.iso, query)
  {
    Filter(vms, (v: VmEntry) => Matches(v.iso, query))
  }

  function FilteredBanned(banned: seq<BannedEntry>, query: string): (r: seq<BannedEntry>)
    ensures forall b :: b in r <==> b in banned && Matches(b.username, query)
  {
    Filter(banned, (b: BannedEntry) => Matches(b.username, query))
  }

  function FilteredPending(pending: seq<PendingEntry>, query: string): (r: seq<PendingEntry>)
    ensures forall p :: p in r <==> p in pending && Matches(p.username, query)
  {
    Filter(pending, (p: PendingEntry) => Matches(p.username, query))
  }

  /** The empty search lists every user who is not banned. */
  lemma EmptyQueryListsUnbanned(users: seq<UserEntry>, banned: seq<BannedEntry>, u: UserEntry)
    ensures u in FilteredUsers(users, banned, "") <==> u in users && !IsUserBanned(banned, u.id)
  {
    assert OccursAt(ToLower(u.username), ToLower(""), 0);
  }

  // ---------------------------------------------------------------------
  // The log view's order
  // ---------------------------------------------------------------------

  /** Dates are listed with larger timestamps first. */
  ghost predicate NewestFirst(dates: seq<string>, stamp: string -> int)
  {
    forall i, j :: 0 <= i < j < |dates| ==> stamp(dates[i]) >= stamp(dates[j])
  }

  /** Place `d` before the first date that is not newer than it. */
  function InsertNewestFirst(d: string, sorted: seq<string>, stamp: string -> int): (r: seq<string>)
    requires NewestFirst(sorted, stamp)
    ensures NewestFirst(r, stamp)
    ensures multiset(r) == multiset(sorted) + multiset{d}
  {
    if |sorted| == 0 || stamp(sorted[0]) <= stamp(d) then [d] + sorted
    else
      var rest := InsertNewestFirst(d, sorted[1..], stamp);
      HeadStaysFirst(d, sorted, rest, stamp);
      [sorted[0]] + rest
  }

  lemma HeadStaysFirst(d: string, sorted: seq<string>, rest: seq<string>, stamp: string -> int)
    requires |sorted| > 0 && stamp(sorted[0]) > stamp(d)
    requires NewestFirst(sorted, stamp) && NewestFirst(rest, stamp)
    requires multiset(rest) == multiset(sorted[1..]) + multiset{d}
    ensures NewestFirst([sorted[0]] + rest, stamp)
    ensures multiset([sorted[0]] + rest) == multiset(sorted) + multiset{d}
  {
    forall j | 0 <= j < |rest|
      ensures stamp(sorted[0]) >= stamp(rest[j])
    {
      assert rest[j] in multiset(rest);
      if rest[j] != d {
        assert rest[j] in sorted[1..];
        var k :| 0 <= k < |sorted[1..]| && sorted[1..][k] == rest[j];
        assert sorted[k + 1] == rest[j];
      }
    }
    var r := [sorted[0]] + rest;
    assert forall i :: 1 <= i < |r| ==> r[i] == rest[i - 1];
    assert sorted == [sorted[0]] + sorted[1..];
  }

  /**
   * `Object.keys(logs).sort((a, b) => new Date(b) - new Date(a))`, with
   * `stamp` standing for the date parse: the dates, newest first.
   */
  function SortNewestFirst(dates: seq<string>, stamp: string -> int): (r: seq<string>)
    ensures NewestFirst(r, stamp)
    ensures multiset(r) == multiset(dates)
  {
    if |dates| == 0 then []
    else
      assert dates == [dates[0]] + dates[1..];
      InsertNewestFirst(dates[0], SortNewestFirst(dates[1..], stamp), stamp)
  }

  function Reverse<T>(s: seq<T>): (r: seq<T>)
    ensures |r| == |s|
    ensures forall i :: 0 <= i < |s| ==> r[i] == s[|s| - 1 - i]
  {
    if |s| == 0 then [] else Reverse(s[1..]) + [s[0]]
  }

  /** `lines.map(parseCefLog)`. */
  function ParseAll(lines: seq<string>): (rows: seq<CefRow>)
    ensures |rows| == |lines|
    ensures forall i :: 0 <= i < |lines| ==> rows[i] == ParseCefLog(lines[i])
  {
    seq(|lines|, i requires 0 <= i < |lines| => ParseCefLog(lines[i]))
  }

  /** The table rows of one date: every stored line parsed, the last written first. */
  function DateRows(lines: seq<string>): (rows: seq<CefRow>)
    ensures |rows| == |lines|
    ensures forall i :: 0 <= i < |lines| ==> rows[i] == ParseCefLog(lines[|lines| - 1 - i])
  {
    var parsed := ParseAll(lines);
    var rows := Reverse(parsed);
    assert forall i :: 0 <= i < |lines| ==> rows[i] == parsed[|lines| - 1 - i];
    rows
  }
}
