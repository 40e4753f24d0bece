/** User search: a query of at least two characters, escaped so that it is
    matched literally, against the username and the local part of the email,
    skipping the requester and everyone on either of the requester's block
    lists, capped at fifteen results without private fields. */
module UserControllers {
  import opened Wrappers
  import opened Models
  import Text

  const ShortQueryMessage := "Search query must be at least 2 characters"
  const ResultLimit := 15

  /** The characters of the class `[.*+?^${}()|[\]\\]`. */
  predicate IsRegexMeta(c: char) {
    c in ".*+?^${}()|[]\\"
  }

  /** `term.replace(/[.*+?^${}()|[\]\\]/g, '\\$&')`. */
  function EscapeRegex(s: string): (r: string)
    ensures |r| >= |s|
  {
    if s == [] then []
    else (if IsRegexMeta(s[0]) then ['\\', s[0]] else [s[0]]) + EscapeRegex(s[1..])
  }

  /** The escape acts character by character. */
  lemma {:induction false} EscapeConcat(a: string, b: string)
    ensures EscapeRegex(a + b) == EscapeRegex(a) + EscapeRegex(b)
  {
    if a != [] {
      assert (a + b)[0] == a[0] && (a + b)[1..] == a[1..] + b;
      EscapeConcat(a[1..], b);
    } else {
      assert a + b == b;
    }
  }

  /** One character: a backslash is put before a metacharacter, any other
      character is kept as it is. */
  lemma EscapeChar(c: char)
    ensures EscapeRegex([c]) == if IsRegexMeta(c) then ['\\', c] else [c]
  {
    assert [c][1..] == [];
  }

  /** A term with no metacharacter is its own pattern. */
  lemma {:induction false} EscapePlain(s: string)
    requires forall i :: 0 <= i < |s| ==> !IsRegexMeta(s[i])
    ensures EscapeRegex(s) == s
  {
    if s != [] {
      EscapePlain(s[1..]);
    }
  }

  /** How the regex engine reads an escaped pattern back as literal
      characters: `\x` stands for `x`. */
  function Unescape(p: string): (r: string)
    decreases |p|
  {
    if p == [] then []
    else if p[0] == '\\' && |p| >= 2 then [p[1]] + Unescape(p[2..])
    else [p[0]] + Unescape(p[1..])
  }

  /** A pattern in which every metacharacter is escaped and every backslash
      escapes a metacharacter. */
  predicate WellEscaped(p: string)
    decreases |p|
  {
    if p == [] then true
    else if p[0] == '\\' then |p| >= 2 && IsRegexMeta(p[1]) && WellEscaped(p[2..])
    else !IsRegexMeta(p[0]) && WellEscaped(p[1..])
  }

  /** Reading the pattern back gives the term: the search is literal. */
  lemma {:induction false} UnescapeEscape(s: string)
    ensures Unescape(EscapeRegex(s)) == s
    ensures WellEscaped(EscapeRegex(s))
  {
    if s != [] {
      UnescapeEscape(s[1..]);
      var e := EscapeRegex(s[1..]);
      if IsRegexMeta(s[0]) {
        assert EscapeRegex(s) == ['\\', s[0]] + e;
        assert (['\\', s[0]] + e)[2..] == e;
      } else {
        assert EscapeRegex(s) == [s[0]] + e;
        assert ([s[0]] + e)[1..] == e;
      }
    }
  }

  /** Every well-escaped pattern is the escape of exactly one term. */
  lemma {:induction false} EscapeUnescape(p: string)
    requires WellEscaped(p)
    ensures EscapeRegex(Unescape(p)) == p
    decreases |p|
  {
    if p != [] {
      if p[0] == '\\' {
        EscapeUnescape(p[2..]);
        var u := Unescape(p[2..]);
        assert ([p[1]] + u)[0] == p[1] && ([p[1]] + u)[1..] == u;
        assert p == ['\\', p[1]] + p[2..];
      } else {
        EscapeUnescape(p[1..]);
        var u := Unescape(p[1..]);
        assert ([p[0]] + u)[0] == p[0] && ([p[0]] + u)[1..] == u;
        assert p == [p[0]] + p[1..];
      }
    }
  }

  lemma ToLowerIdempotent(s: string)
    ensures Text.ToLower(Text.ToLower(s)) == Text.ToLower(s)
  {
    var t := Text.ToLower(s);
    assert forall i :: 0 <= i < |t| ==> Text.ToLower(t)[i] == t[i];
  }

  /** The `emailLocal` stage: the lower-cased email up to its first `@`. */
  function EmailLocal(u: User): (r: string)
    ensures '@' !in r && |r| <= |u.email|
    ensures r == Text.ToLower(u.email)[..|r|]
  {
    Text.BeforeFirst(Text.ToLower(u.email), '@')
  }

  /** `{ $regex: pattern, $options: 'i' }` for a pattern that stands for
      literal characters: a case-insensitive substring occurrence. */
  predicate RegexMatchesI(field: string, pattern: string) {
    Text.Contains(Text.ToLower(field), Text.ToLower(Unescape(pattern)))
  }

  /** For a lower-case term, matching its escaped pattern is finding the term. */
  lemma EscapedMatch(field: string, term: string)
    requires Text.ToLower(term) == term
    ensures RegexMatchesI(field, EscapeRegex(term)) <==> Text.Contains(Text.ToLower(field), term)
  {
    UnescapeEscape(term);
  }

  /** The first `$match`: not the requester and on neither block list. */
  predicate Visible(requester: User, u: User) {
    u.id != requester.id && u.id !in requester.blockedUsers && u.id !in requester.blockedBy
  }

  /** The second `$match`: username or email local part matches. */
  predicate PatternMatches(u: User, pattern: string) {
    RegexMatchesI(u.username, pattern) || RegexMatchesI(EmailLocal(u), pattern)
  }

  /** The two `$match` stages, in storage order. */
  function MatchStage(users: seq<User>, requester: User, pattern: string): (r: seq<User>)
    ensures forall u :: u in r <==> u in users && Visible(requester, u) && PatternMatches(u, pattern)
    ensures |r| <= |users|
  {
    if users == [] then []
    else
      assert forall u :: u in users <==> u == users[0] || u in users[1..];
      var u := users[0];
      (if Visible(requester, u) && PatternMatches(u, pattern) then [u] else [])
        + MatchStage(users[1..], requester, pattern)
  }

  /** The match stages work piecewise, so the matches keep their storage
      order. */
  lemma {:induction false} MatchStageConcat(a: seq<User>, b: seq<User>, requester: User, pattern: string)
    ensures MatchStage(a + b, requester, pattern) == MatchStage(a, requester, pattern) + MatchStage(b, requester, pattern)
  {
    if a == [] {
      assert a + b == b;
    } else {
      assert (a + b)[1..] == a[1..] + b;
      MatchStageConcat(a[1..], b, requester, pattern);
    }
  }

  /** What the `$project` stage leaves of a user: no password, no email, no
      block lists, but the computed `emailLocal`. */
  datatype PublicUser = PublicUser(id: Id, username: string, avatarUrl: Option<string>, emailLocal: string)

  function Project(u: User): PublicUser {
    PublicUser(u.id, u.username, u.avatarUrl, EmailLocal(u))
  }

  /** The search term a valid query yields. */
  function SearchTerm(q: string): string {
    Text.ToLower(Text.Trim(q))
  }

  /** The term occurs in the username or in the email local part, ignoring case. */
  predicate TermMatches(u: User, term: string) {
    Text.Contains(Text.ToLower(u.username), term) || Text.Contains(Text.ToLower(EmailLocal(u)), term)
  }

  function Min(a: int, b: int): int { if a <= b then a else b }

  /** With the escaped pattern of the search term, the match stage keeps
      exactly the visible users the term occurs in. */
  lemma MatchStageFindsTerm(users: seq<User>, requester: User, q: string)
    ensures var term := SearchTerm(q);
      forall u :: u in MatchStage(users, requester, EscapeRegex(term)) <==>
        u in users && Visible(requester, u) && TermMatches(u, term)
  {
    var term := SearchTerm(q);
    ToLowerIdempotent(Text.Trim(q));
    forall u ensures PatternMatches(u, EscapeRegex(term)) <==> TermMatches(u, term) {
      EscapedMatch(u.username, term);
      EscapedMatch(EmailLocal(u), term);
    }
  }

  /** The `$project` and `$limit` stages. */
  function ProjectFirst(m: seq<User>, n: nat): (r: seq<PublicUser>)
    ensures |r| == Min(n, |m|)
    ensures forall i :: 0 <= i < |r| ==> r[i] == Project(m[i])
    ensures |m| <= n ==> forall u :: u in m ==> Project(u) in r
  {
    var k := Min(n, |m|);
    var r := seq(k, i requires 0 <= i < k => Project(m[i]));
    assert |m| <= n ==> forall u :: u in m ==> Project(u) in r by {
      if |m| <= n {
        forall u | u in m ensures Project(u) in r {
          var i :| 0 <= i < |m| && m[i] == u;
          assert r[i] == Project(u);
        }
      }
    }
    r
  }

  /** `searchUsers`: the first matches of the escaped term, projected. */
  function SearchUsers(users: seq<User>, requester: User, q: Option<string>): (r: Reply<seq<PublicUser>>)
    ensures r.Fail? <==> q.None? || |Text.Trim(q.value)| < 2
    ensures r.Fail? ==> r == Fail(400, ShortQueryMessage)
    ensures r.Ok? ==> r.status == 200 && |r.body| <= ResultLimit
    ensures r.Ok? ==>
      var m := MatchStage(users, requester, EscapeRegex(SearchTerm(q.value)));
      && |r.body| == Min(ResultLimit, |m|)
      && (forall i :: 0 <= i < |r.body| ==> r.body[i] == Project(m[i]))
  {
    if q.None? || |Text.Trim(q.value)| < 2 then Fail(400, ShortQueryMessage)
    else
      var m := MatchStage(users, requester, EscapeRegex(SearchTerm(q.value)));
      Ok(200, ProjectFirst(m, ResultLimit))
  }

  /** Every user a search returns is a visible user, neither the requester
      nor blocked either way, in whose username or email local part the term
      occurs. */
  lemma SearchUsersSound(users: seq<User>, requester: User, q: Option<string>)
    requires SearchUsers(users, requester, q).Ok?
    ensures var r := SearchUsers(users, requester, q);
      var term := SearchTerm(q.value);
      forall i :: 0 <= i < |r.body| ==>
        && r.body[i].id != requester.id
        && r.body[i].id !in requester.blockedUsers
        && r.body[i].id !in requester.blockedBy
        && exists u :: u in users && Visible(requester, u) && TermMatches(u, term) && r.body[i] == Project(u)
  {
    var r := SearchUsers(users, requester, q);
    var m := MatchStage(users, requester, EscapeRegex(SearchTerm(q.value)));
    MatchStageFindsTerm(users, requester, q.value);
    assert forall i :: 0 <= i < |r.body| ==> m[i] in m;
  }

  /** When there are at most fifteen matches, every visible user the term
      occurs in is returned. */
  lemma SearchUsersComplete(users: seq<User>, requester: User, q: Option<string>)
    requires SearchUsers(users, requester, q).Ok?
    requires |MatchStage(users, requester, EscapeRegex(SearchTerm(q.value)))| <= ResultLimit
    ensures var term := SearchTerm(q.value);
      forall u :: u in users && Visible(requester, u) && TermMatches(u, term) ==>
        Project(u) in SearchUsers(users, requester, q).body
  {
    MatchStageFindsTerm(users, requester, q.value);
  }

  /** A search entry carries the lower-cased local part of the matched
      user's email, although the full email is projected away. */
  lemma SearchEntryCarriesEmailLocal(users: seq<User>, requester: User, q: Option<string>, i: nat)
    requires SearchUsers(users, requester, q).Ok?
    requires i < |SearchUsers(users, requester, q).body|
    ensures var e := SearchUsers(users, requester, q).body[i];
      exists u :: u in users && e.id == u.id && e.emailLocal == EmailLocal(u)
  {
    SearchUsersSound(users, requester, q);
  }
}
