/**
 * The line pattern of `ReflogHunter.hunt` (`src/reflogEngine.ts`, line 29):
 *
 *   ^([0-9a-f]{40}) ([0-9a-f]{40}) (.*?) <.*?> (\d+) (.*?) (.*?): (.*)$
 *
 * as a backtracking search in the order a JavaScript regular-expression engine tries it: each
 * lazy group `(.*?)` tries the shortest length first and grows one character at a time; the
 * greedy `\d+` tries the longest digit run first and gives back one digit at a time; `(.*)$` must
 * take the whole rest. Without the `s` flag, `.` matches anything but the line terminators
 * `\n`, `\r`, U+2028 and U+2029, and without the `m` flag `^` and `$` anchor the whole line.
 *
 * The pattern is modelled as the code writes it, which differs from what its unit tests expect.
 * Only a space separates the timezone from the action. On a line whose timezone is followed by
 * a tab, the lazy timezone group runs to the first space: `+0700\tcommit (initial): message 1`
 * gives the timezone `+0700\tcommit` and the action `(initial)`. A line with no `": "` after such
 * a space, like `+0700\tcheckout: moving from master to dev`, does not match at all and is
 * dropped; there is no `unknown` action for lines without a colon.
 */
module ReflogLine {
  import opened Wrappers
  import opened Strings
  import opened Bytes

  /** The characters `.` does not match. */
  predicate IsLineTerminator(c: char) {
    c == '\n' || c == '\r' || c == '\U{2028}' || c == '\U{2029}'
  }

  /** What `.*` can match: no line terminator. */
  predicate AnyChars(s: string) {
    forall k :: 0 <= k < |s| ==> !IsLineTerminator(s[k])
  }

  /** A lazy `.*?` may take one more character that is not a line terminator. */
  lemma AnyCharsExtend(s: string, i: nat)
    requires i < |s| && AnyChars(s[..i]) && !IsLineTerminator(s[i])
    ensures AnyChars(s[..i + 1])
  {
    assert s[..i + 1] == s[..i] + [s[i]];
  }

  /** No `x` immediately followed by `y` anywhere in `s`. */
  predicate NoPair(s: string, x: char, y: char) {
    forall k :: 0 <= k < |s| - 1 ==> !(s[k] == x && s[k + 1] == y)
  }

  // ---------------------------------------------------------------- matches of the pattern's tails

  /** `(.*?): (.*)$`: the action (group 6) and the message (group 7). */
  datatype ActionMatch = ActionMatch(action: string, message: string)
  /** `(.*?) ` then the action tail: the timezone (group 5). */
  datatype ZoneMatch = ZoneMatch(zone: string, next: ActionMatch)
  /** `(\d+) ` then the zone tail: the timestamp digits (group 4). */
  datatype StampMatch = StampMatch(timestamp: string, next: ZoneMatch)
  /** `.*?> ` then the stamp tail: the e-mail between the angle brackets (not captured). */
  datatype EmailMatch = EmailMatch(email: string, next: StampMatch)
  /** `(.*?) <` then the e-mail tail: the user (group 3). */
  datatype UserMatch = UserMatch(user: string, next: EmailMatch)

  // The text each tail covers.
  function ActionText(m: ActionMatch): string { m.action + ": " + m.message }
  function ZoneText(m: ZoneMatch): string { m.zone + " " + ActionText(m.next) }
  function StampText(m: StampMatch): string { m.timestamp + " " + ZoneText(m.next) }
  function EmailText(m: EmailMatch): string { m.email + "> " + StampText(m.next) }
  function UserText(m: UserMatch): string { m.user + " <" + EmailText(m.next) }

  // What each tail may hold.
  predicate ActionOk(m: ActionMatch) { AnyChars(m.action) && AnyChars(m.message) }
  predicate ZoneOk(m: ZoneMatch) { AnyChars(m.zone) && ActionOk(m.next) }
  predicate StampOk(m: StampMatch) { |m.timestamp| >= 1 && AllDigits(m.timestamp) && ZoneOk(m.next) }
  predicate EmailOk(m: EmailMatch) { AnyChars(m.email) && StampOk(m.next) }
  predicate UserOk(m: UserMatch) { AnyChars(m.user) && EmailOk(m.next) }

  // ---------------------------------------------------------------- the search

  /**
   * `(.*?): (.*)$` on `v`, the lazy group already holding `v[..b]`: first try `": "` and the rest
   * of the line, then grow the group by one character.
   */
  function MatchAction(v: string, b: nat): (r: Option<ActionMatch>)
    requires b <= |v| && AnyChars(v[..b])
    ensures r.Some? ==> v == ActionText(r.value)
    decreases |v| - b
  {
    if b + 1 < |v| && v[b] == ':' && v[b + 1] == ' ' && AnyChars(v[b + 2..]) then
      assert v == v[..b] + ": " + v[b + 2..];
      Some(ActionMatch(v[..b], v[b + 2..]))
    else if b < |v| && !IsLineTerminator(v[b]) then
      AnyCharsExtend(v, b);
      MatchAction(v, b + 1)
    else None
  }

  /** `(.*?) ` followed by the action tail, the lazy timezone group already holding `u[..a]`. */
  function MatchZone(u: string, a: nat): (r: Option<ZoneMatch>)
    requires a <= |u| && AnyChars(u[..a])
    ensures r.Some? ==> u == ZoneText(r.value)
    decreases |u| - a
  {
    var here :=
      if a < |u| && u[a] == ' ' then
        match MatchAction(u[a + 1..], 0)
        case None => None
        case Some(m) => assert u == u[..a] + " " + u[a + 1..]; Some(ZoneMatch(u[..a], m))
      else None;
    if here.Some? then here
    else if a < |u| && !IsLineTerminator(u[a]) then
      AnyCharsExtend(u, a);
      MatchZone(u, a + 1)
    else None
  }

  /** The number of leading ASCII digits. */
  function DigitRun(t: string): (n: nat)
    ensures n <= |t| && AllDigits(t[..n]) && (n < |t| ==> !IsDigit(t[n]))
    decreases |t|
  {
    if t != [] && IsDigit(t[0]) then
      var n := 1 + DigitRun(t[1..]);
      assert t[..n] == [t[0]] + t[1..][..n - 1];
      n
    else 0
  }

  /** `(\d+) ` followed by the zone tail, `\d+` holding `t[..d]` and giving back one digit at a time. */
  function MatchStamp(t: string, d: nat): (r: Option<StampMatch>)
    requires d <= |t| && AllDigits(t[..d])
    ensures r.Some? ==> t == StampText(r.value)
    decreases d
  {
    if d == 0 then None
    else
      var here :=
        if d < |t| && t[d] == ' ' then
          match MatchZone(t[d + 1..], 0)
          case None => None
          case Some(m) => assert t == t[..d] + " " + t[d + 1..]; Some(StampMatch(t[..d], m))
        else None;
      if here.Some? then here
      else
        assert t[..d - 1] == t[..d][..d - 1];
        MatchStamp(t, d - 1)
  }

  /** `.*?> ` followed by the stamp tail, the lazy e-mail already holding `s[..e]`. */
  function MatchEmail(s: string, e: nat): (r: Option<EmailMatch>)
    requires e <= |s| && AnyChars(s[..e])
    ensures r.Some? ==> s == EmailText(r.value)
    decreases |s| - e
  {
    var here :=
      if e + 1 < |s| && s[e] == '>' && s[e + 1] == ' ' then
        var t := s[e + 2..];
        match MatchStamp(t, DigitRun(t))
        case None => None
        case Some(m) => assert s == s[..e] + "> " + t; Some(EmailMatch(s[..e], m))
      else None;
    if here.Some? then here
    else if e < |s| && !IsLineTerminator(s[e]) then
      AnyCharsExtend(s, e);
      MatchEmail(s, e + 1)
    else None
  }

  /** `(.*?) <` followed by the e-mail tail, the lazy user group already holding `s[..i]`. */
  function MatchUser(s: string, i: nat): (r: Option<UserMatch>)
    requires i <= |s| && AnyChars(s[..i])
    ensures r.Some? ==> s == UserText(r.value)
    decreases |s| - i
  {
    var here :=
      if i + 1 < |s| && s[i] == ' ' && s[i + 1] == '<' then
        match MatchEmail(s[i + 2..], 0)
        case None => None
        case Some(m) => assert s == s[..i] + " <" + s[i + 2..]; Some(UserMatch(s[..i], m))
      else None;
    if here.Some? then here
    else if i < |s| && !IsLineTerminator(s[i]) then
      AnyCharsExtend(s, i);
      MatchUser(s, i + 1)
    else None
  }

  // ---------------------------------------------------------------- well-formedness of a match

  lemma {:induction false} ActionMatchOk(v: string, b: nat)
    requires b <= |v| && AnyChars(v[..b])
    ensures MatchAction(v, b).Some? ==> ActionOk(MatchAction(v, b).value)
    decreases |v| - b
  {
    if !(b + 1 < |v| && v[b] == ':' && v[b + 1] == ' ' && AnyChars(v[b + 2..])) && b < |v| && !IsLineTerminator(v[b]) {
      AnyCharsExtend(v, b);
      ActionMatchOk(v, b + 1);
    }
  }

  lemma {:induction false} ZoneMatchOk(u: string, a: nat)
    requires a <= |u| && AnyChars(u[..a])
    ensures MatchZone(u, a).Some? ==> ZoneOk(MatchZone(u, a).value)
    decreases |u| - a
  {
    if a < |u| && u[a] == ' ' {
      ActionMatchOk(u[a + 1..], 0);
    }
    if a < |u| && !IsLineTerminator(u[a]) {
      AnyCharsExtend(u, a);
      ZoneMatchOk(u, a + 1);
    }
  }

  lemma {:induction false} StampMatchOk(t: string, d: nat)
    requires d <= |t| && AllDigits(t[..d])
    ensures MatchStamp(t, d).Some? ==> StampOk(MatchStamp(t, d).value)
    decreases d
  {
    if d > 0 {
      if d < |t| && t[d] == ' ' {
        ZoneMatchOk(t[d + 1..], 0);
      }
      assert t[..d - 1] == t[..d][..d - 1];
      StampMatchOk(t, d - 1);
    }
  }

  lemma {:induction false} EmailMatchOk(s: string, e: nat)
    requires e <= |s| && AnyChars(s[..e])
    ensures MatchEmail(s, e).Some? ==> EmailOk(MatchEmail(s, e).value)
    decreases |s| - e
  {
    if e + 1 < |s| && s[e] == '>' && s[e + 1] == ' ' {
      var t := s[e + 2..];
      StampMatchOk(t, DigitRun(t));
    }
    if e < |s| && !IsLineTerminator(s[e]) {
      AnyCharsExtend(s, e);
      EmailMatchOk(s, e + 1);
    }
  }

  lemma {:induction false} UserMatchOk(s: string, i: nat)
    requires i <= |s| && AnyChars(s[..i])
    ensures MatchUser(s, i).Some? ==> UserOk(MatchUser(s, i).value)
    decreases |s| - i
  {
    if i + 1 < |s| && s[i] == ' ' && s[i + 1] == '<' {
      EmailMatchOk(s[i + 2..], 0);
    }
    if i < |s| && !IsLineTerminator(s[i]) {
      AnyCharsExtend(s, i);
      UserMatchOk(s, i + 1);
    }
  }

  // ---------------------------------------------------------------- the whole line

  /**
   * The groups of a matched line: the two hashes (groups 1 and 2) and the match of the rest,
   * which holds the user, e-mail, timestamp digits, timezone, action and message.
   */
  datatype Groups = Groups(oldSha: string, newSha: string, tail: UserMatch)
  {
    function User(): string { tail.user }
    function Email(): string { tail.next.email }
    function Timestamp(): string { tail.next.next.timestamp }
    function Zone(): string { tail.next.next.next.zone }
    function Action(): string { tail.next.next.next.next.action }
    function Message(): string { tail.next.next.next.next.message }
  }

  /** The line a set of groups spells. */
  function Reassemble(g: Groups): string {
    g.oldSha + " " + g.newSha + " " + UserText(g.tail)
  }

  /** `[0-9a-f]{40}`. */
  predicate IsSha(s: string) {
    |s| == 40 && IsLowerHex(s)
  }

  /** What the groups of any match hold. */
  predicate GroupsWellFormed(g: Groups) {
    IsSha(g.oldSha) && IsSha(g.newSha) && UserOk(g.tail)
  }

  /** `line.match(…)`: the groups of the first match the engine finds, or `None`. */
  function MatchLine(line: string): (r: Option<Groups>)
    ensures r.Some? ==> Reassemble(r.value) == line
  {
    if |line| >= 82 && IsSha(line[..40]) && line[40] == ' ' && IsSha(line[41..81]) && line[81] == ' ' then
      match MatchUser(line[82..], 0)
      case None => None
      case Some(m) =>
        assert line == line[..40] + " " + line[41..81] + " " + line[82..];
        Some(Groups(line[..40], line[41..81], m))
    else None
  }

  /** Every match has 40-digit lowercase hashes, digits in the timestamp and no line break. */
  lemma MatchWellFormed(line: string)
    ensures MatchLine(line).Some? ==> GroupsWellFormed(MatchLine(line).value)
  {
    if |line| >= 82 {
      UserMatchOk(line[82..], 0);
    }
  }

  // ---------------------------------------------------------------- the round trip

  // Tails the engine reads back: no earlier place where a lazy group could stop.
  predicate ActionCanonical(m: ActionMatch) { ActionOk(m) && NoPair(m.action, ':', ' ') }
  predicate ZoneCanonical(m: ZoneMatch) {
    AnyChars(m.zone) && ' ' !in m.zone && ActionCanonical(m.next)
  }
  predicate StampCanonical(m: StampMatch) {
    |m.timestamp| >= 1 && AllDigits(m.timestamp) && ZoneCanonical(m.next)
  }
  predicate EmailCanonical(m: EmailMatch) {
    AnyChars(m.email) && NoPair(m.email, '>', ' ') && StampCanonical(m.next)
  }
  predicate UserCanonical(m: UserMatch) {
    AnyChars(m.user) && NoPair(m.user, ' ', '<') && EmailCanonical(m.next)
  }

  /**
   * Groups the engine finds again in the line they spell: well formed, with no `" <"` in the
   * user, no `"> "` in the e-mail, no space in the timezone and no `": "` in the action.
   */
  predicate Canonical(g: Groups) {
    IsSha(g.oldSha) && IsSha(g.newSha) && UserCanonical(g.tail)
  }

  lemma {:induction false} ActionFrom(m: ActionMatch, b: nat)
    requires ActionCanonical(m) && b <= |m.action|
    ensures AnyChars(ActionText(m)[..b])
    ensures MatchAction(ActionText(m), b) == Some(m)
    decreases |m.action| - b
  {
    var v := ActionText(m);
    assert v[..b] == m.action[..b];
    if b < |m.action| {
      assert v[b] == m.action[b];
      assert v[b + 1] == if b + 1 < |m.action| then m.action[b + 1] else ':';
      ActionFrom(m, b + 1);
    } else {
      assert v[b] == ':' && v[b + 1] == ' ' && v[..b] == m.action && v[b + 2..] == m.message;
    }
  }

  lemma {:induction false} ZoneFrom(m: ZoneMatch, a: nat)
    requires ZoneCanonical(m) && a <= |m.zone|
    ensures AnyChars(ZoneText(m)[..a])
    ensures MatchZone(ZoneText(m), a) == Some(m)
    decreases |m.zone| - a
  {
    var u := ZoneText(m);
    assert u[..a] == m.zone[..a];
    if a < |m.zone| {
      assert u[a] == m.zone[a];
      ZoneFrom(m, a + 1);
    } else {
      assert u[a] == ' ' && u[..a] == m.zone && u[a + 1..] == ActionText(m.next);
      ActionFrom(m.next, 0);
    }
  }

  /** A digit run followed by a non-digit is the whole run. */
  lemma {:induction false} DigitRunAt(t: string, n: nat)
    requires n < |t| && AllDigits(t[..n]) && !IsDigit(t[n])
    ensures DigitRun(t) == n
    decreases n
  {
    if n > 0 {
      assert t[0] == t[..n][0];
      assert t[1..][..n - 1] == t[1..n];
      DigitRunAt(t[1..], n - 1);
    }
  }

  lemma StampAt(m: StampMatch)
    requires StampCanonical(m)
    ensures DigitRun(StampText(m)) == |m.timestamp|
    ensures MatchStamp(StampText(m), |m.timestamp|) == Some(m)
  {
    var t, n := StampText(m), |m.timestamp|;
    assert t[..n] == m.timestamp && t[n] == ' ';
    DigitRunAt(t, n);
    assert t[n + 1..] == ZoneText(m.next);
    ZoneFrom(m.next, 0);
  }

  lemma {:induction false} EmailFrom(m: EmailMatch, e: nat)
    requires EmailCanonical(m) && e <= |m.email|
    ensures AnyChars(EmailText(m)[..e])
    ensures MatchEmail(EmailText(m), e) == Some(m)
    decreases |m.email| - e
  {
    var s := EmailText(m);
    assert s[..e] == m.email[..e];
    if e < |m.email| {
      assert s[e] == m.email[e];
      assert s[e + 1] == if e + 1 < |m.email| then m.email[e + 1] else '>';
      EmailFrom(m, e + 1);
    } else {
      assert s[e] == '>' && s[e + 1] == ' ' && s[..e] == m.email && s[e + 2..] == StampText(m.next);
      StampAt(m.next);
    }
  }

  lemma {:induction false} UserFrom(m: UserMatch, i: nat)
    requires UserCanonical(m) && i <= |m.user|
    ensures AnyChars(UserText(m)[..i])
    ensures MatchUser(UserText(m), i) == Some(m)
    decreases |m.user| - i
  {
    var s := UserText(m);
    assert s[..i] == m.user[..i];
    if i < |m.user| {
      assert s[i] == m.user[i];
      assert s[i + 1] == if i + 1 < |m.user| then m.user[i + 1] else ' ';
      UserFrom(m, i + 1);
    } else {
      assert s[i] == ' ' && s[i + 1] == '<' && s[..i] == m.user && s[i + 2..] == EmailText(m.next);
      EmailFrom(m.next, 0);
    }
  }

  /** Line round trip: the engine reads canonical groups back out of the line they spell. */
  lemma LineRoundTrip(g: Groups)
    requires Canonical(g)
    ensures MatchLine(Reassemble(g)) == Some(g)
  {
    var line, m := Reassemble(g), g.tail;
    assert line == g.oldSha + " " + g.newSha + " " + UserText(m);
    assert line[..40] == g.oldSha && line[40] == ' ' && line[41..81] == g.newSha && line[81] == ' ';
    assert line[82..] == UserText(m);
    UserFrom(m, 0);
  }
  // ---------------------------------------------------------------- completeness

  // Each level of the search succeeds on any text some well-formed tail spells: the lazy group
  // stops at the tail's own boundary at the latest.

  lemma {:induction false} ActionFound(m: ActionMatch, b: nat)
    requires ActionOk(m) && b <= |m.action|
    ensures AnyChars(ActionText(m)[..b])
    ensures MatchAction(ActionText(m), b).Some?
    decreases |m.action| - b
  {
    var v := ActionText(m);
    assert v[..b] == m.action[..b];
    if b < |m.action| {
      assert v[b] == m.action[b];
      ActionFound(m, b + 1);
    } else {
      assert v[b] == ':' && v[b + 1] == ' ' && v[b + 2..] == m.message;
    }
  }

  lemma {:induction false} ZoneFound(m: ZoneMatch, a: nat)
    requires ZoneOk(m) && a <= |m.zone|
    ensures AnyChars(ZoneText(m)[..a])
    ensures MatchZone(ZoneText(m), a).Some?
    decreases |m.zone| - a
  {
    var u := ZoneText(m);
    assert u[..a] == m.zone[..a];
    if a < |m.zone| {
      assert u[a] == m.zone[a];
      ZoneFound(m, a + 1);
    } else {
      assert u[a] == ' ' && u[a + 1..] == ActionText(m.next);
      ActionFound(m.next, 0);
    }
  }

  lemma StampFound(m: StampMatch)
    requires StampOk(m)
    ensures MatchStamp(StampText(m), DigitRun(StampText(m))).Some?
  {
    var t, n := StampText(m), |m.timestamp|;
    assert t[..n] == m.timestamp && t[n] == ' ';
    DigitRunAt(t, n);
    assert t[n + 1..] == ZoneText(m.next);
    ZoneFound(m.next, 0);
  }

  lemma {:induction false} EmailFound(m: EmailMatch, e: nat)
    requires EmailOk(m) && e <= |m.email|
    ensures AnyChars(EmailText(m)[..e])
    ensures MatchEmail(EmailText(m), e).Some?
    decreases |m.email| - e
  {
    var s := EmailText(m);
    assert s[..e] == m.email[..e];
    if e < |m.email| {
      assert s[e] == m.email[e];
      EmailFound(m, e + 1);
    } else {
      assert s[e] == '>' && s[e + 1] == ' ' && s[e + 2..] == StampText(m.next);
      StampFound(m.next);
    }
  }

  lemma {:induction false} UserFound(m: UserMatch, i: nat)
    requires UserOk(m) && i <= |m.user|
    ensures AnyChars(UserText(m)[..i])
    ensures MatchUser(UserText(m), i).Some?
    decreases |m.user| - i
  {
    var s := UserText(m);
    assert s[..i] == m.user[..i];
    if i < |m.user| {
      assert s[i] == m.user[i];
      UserFound(m, i + 1);
    } else {
      assert s[i] == ' ' && s[i + 1] == '<' && s[i + 2..] == EmailText(m.next);
      EmailFound(m.next, 0);
    }
  }

  /**
   * A line matches exactly when some well-formed groups spell it. The groups found may differ
   * from the ones that spell it: each lazy group stops at its earliest possible place.
   */
  lemma MatchIff(line: string)
    ensures MatchLine(line).Some? <==> exists g :: GroupsWellFormed(g) && Reassemble(g) == line
  {
    if MatchLine(line).Some? {
      MatchWellFormed(line);
      var g := MatchLine(line).value;
      assert GroupsWellFormed(g) && Reassemble(g) == line;
    }
    if exists g :: GroupsWellFormed(g) && Reassemble(g) == line {
      var g :| GroupsWellFormed(g) && Reassemble(g) == line;
      assert line[..40] == g.oldSha && line[40] == ' ' && line[41..81] == g.newSha && line[81] == ' ';
      assert line[82..] == UserText(g.tail);
      UserFound(g.tail, 0);
    }
  }
}
