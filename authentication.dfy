/**
 * Token authentication (app/controllers/concerns/authentication.rb): the
 * `Authorization` value must use the `Bookland-Token` scheme, the credentials
 * are scanned out of it with a regular expression, and the client is let in
 * only when its `api_key` credential is an activated key. Every refusal
 * renders 401 with a `WWW-Authenticate` challenge.
 */
module Authentication {
  import opened Wrappers
  import opened Text
  import opened RubyHash

  const AuthScheme: string := "Bookland-Token"
  const ClientRealm: string := "Client Realm"
  const StatusUnauthorized := 401
  const StatusOk := 200

  /** The scheme followed by one space, which the scheme check looks for. */
  const SchemePrefix: string := AuthScheme + " "

  /** `request.authorization.to_s`: a missing header reads as the empty string. */
  function AuthorizationRequest(header: Option<string>): (r: string)
    ensures header == None ==> r == ""
    ensures header.Some? ==> r == header.value
  {
    header.GetOr("")
  }

  // ---------------------------------------------------------------------------
  // The scheme check: `authorization_request.match(/^Bookland-Token /)`

  /** Ruby's `^` matches at the start of the string and after every line feed. */
  predicate LineStart(s: string, i: int) {
    i == 0 || (0 < i <= |s| && s[i - 1] == '\n')
  }

  /** The scheme pattern matches at a line start at or after position `i`. */
  predicate SchemeMatchesFrom(s: string, i: nat)
    requires i <= |s|
    decreases |s| - i
  {
    (LineStart(s, i) && IsPrefix(SchemePrefix, s[i..])) || (i < |s| && SchemeMatchesFrom(s, i + 1))
  }

  /** The pattern matches exactly when some line of the value starts with `Bookland-Token `. */
  predicate SchemeMatches(s: string): (r: bool)
    ensures r <==> exists k :: 0 <= k <= |s| && LineStart(s, k) && IsPrefix(SchemePrefix, s[k..])
  {
    SchemeMatchesFromIff(s, 0);
    SchemeMatchesFrom(s, 0)
  }

  lemma {:induction false} SchemeMatchesFromIff(s: string, i: nat)
    requires i <= |s|
    ensures SchemeMatchesFrom(s, i) <==>
      exists k :: i <= k <= |s| && LineStart(s, k) && IsPrefix(SchemePrefix, s[k..])
    decreases |s| - i
  {
    if i < |s| {
      SchemeMatchesFromIff(s, i + 1);
    }
  }

  /** On a one-line value (every well-formed header value) the check is a prefix test; the empty value fails. */
  lemma SchemeMatchesOneLine(s: string)
    requires '\n' !in s
    ensures SchemeMatches(s) <==> IsPrefix(SchemePrefix, s)
    ensures !SchemeMatches("")
  {
    if SchemeMatches(s) {
      var k :| 0 <= k <= |s| && LineStart(s, k) && IsPrefix(SchemePrefix, s[k..]);
    }
  }

  /** Because `^` is a line anchor, a later line that starts with the scheme also passes. */
  lemma SchemeMatchesLaterLine(first: string, rest: string)
    ensures SchemeMatches(first + "\n" + SchemePrefix + rest)
  {
    var s := first + "\n" + SchemePrefix + rest;
    var k := |first| + 1;
    assert s[k - 1] == '\n';
    assert s[k..] == SchemePrefix + rest;
  }

  // ---------------------------------------------------------------------------
  // The credentials: `Hash[authorization_request.scan(/(\w+)[:=] ?"?(\w+)"?/)]`

  /** `\w`: an ASCII letter, digit or underscore. */
  predicate IsWordChar(c: char) {
    ('A' <= c <= 'Z') || ('a' <= c <= 'z') || ('0' <= c <= '9') || c == '_'
  }

  predicate IsWord(w: string) {
    w != [] && forall k {:trigger IsWordChar(w[k])} :: 0 <= k < |w| ==> IsWordChar(w[k])
  }

  /** The end of the longest run of word characters starting at `i`. */
  function WordRunEnd(s: string, i: nat): (e: nat)
    requires i <= |s|
    ensures i <= e <= |s|
    ensures forall k {:trigger IsWordChar(s[k])} :: i <= k < e ==> IsWordChar(s[k])
    ensures e == |s| || !IsWordChar(s[e])
    decreases |s| - i
  {
    if i < |s| && IsWordChar(s[i]) then WordRunEnd(s, i + 1) else i
  }

  /** One match of the credential pattern: the two captures and where the match ends. */
  datatype Match = Match(name: string, value: string, end: nat)

  /**
   * The second half of the pattern, ` ?"?(\w+)"?`, anchored at `j`: the
   * optional space and quote are taken when present (leaving them out would
   * leave a non-word character where the value must start), then the
   * longest run of word characters, then an optional closing quote. Gives
   * the captured value and where the match ends.
   */
  function ValueAt(s: string, j: nat): (m: Option<(string, nat)>)
    requires j <= |s|
    ensures m.Some? ==> j < m.value.1 <= |s| && IsWord(m.value.0)
  {
    var j1 := if j < |s| && s[j] == ' ' then j + 1 else j;
    var j2 := if j1 < |s| && s[j1] == '"' then j1 + 1 else j1;
    var v := WordRunEnd(s, j2);
    if v == j2 then None
    else
      var end := if v < |s| && s[v] == '"' then v + 1 else v;
      Some((s[j2..v], end))
  }

  /**
   * The credential pattern anchored at `i`. The name run is necessarily the
   * longest one: a shorter run is followed by a word character, not by `:`
   * or `=`.
   */
  function MatchAt(s: string, i: nat): (m: Option<Match>)
    requires i <= |s|
    ensures m.Some? ==> i < m.value.end <= |s| && IsWord(m.value.name) && IsWord(m.value.value)
    ensures m.Some? ==> i + |m.value.name| < |s| && s[i + |m.value.name|] in {':', '='}
    ensures m.Some? ==> s[i..i + |m.value.name|] == m.value.name
  {
    var e := WordRunEnd(s, i);
    if e == i || e == |s| || (s[e] != ':' && s[e] != '=') then None
    else
      match ValueAt(s, e + 1)
      case None => None
      case Some((value, end)) => Some(Match(s[i..e], value, end))
  }

  /** `scan`: the leftmost non-overlapping matches from position `i` on, as (name, value) pairs. */
  function Scan(s: string, i: nat): (r: seq<(string, string)>)
    requires i <= |s|
    ensures |r| <= |s| - i
    decreases |s| - i
  {
    if i == |s| then []
    else
      match MatchAt(s, i)
      case Some(m) => [(m.name, m.value)] + Scan(s, m.end)
      case None => Scan(s, i + 1)
  }

  /** `credentials`: one entry per scanned name, holding the value scanned last for it. */
  function Credentials(auth: string): (r: Hash<string>)
    ensures DistinctKeys(r)
    ensures forall k :: Lookup(r, k) == LastValue(Scan(auth, 0), k)
  {
    var ps := Scan(auth, 0);
    FromPairsDistinctKeys(ps);
    FromPairsLookup(ps);
    FromPairs(ps)
  }

  /** Every scanned name and value is a run of word characters. */
  lemma {:induction false} ScanWords(s: string, i: nat)
    requires i <= |s|
    ensures forall k :: 0 <= k < |Scan(s, i)| ==> IsWord(Scan(s, i)[k].0) && IsWord(Scan(s, i)[k].1)
    decreases |s| - i
  {
    if i < |s| {
      match MatchAt(s, i)
      case Some(m) =>
        ScanWords(s, m.end);
        var r := Scan(s, i);
        assert r == [(m.name, m.value)] + Scan(s, m.end);
        assert forall k :: 1 <= k < |r| ==> r[k] == Scan(s, m.end)[k - 1];
      case None =>
        ScanWords(s, i + 1);
    }
  }

  /** Positions where the pattern does not match are skipped. */
  lemma {:induction false} ScanSkip(s: string, i: nat, k: nat)
    requires i <= k <= |s|
    requires forall j :: i <= j < k ==> MatchAt(s, j) == None
    ensures Scan(s, i) == Scan(s, k)
    decreases k - i
  {
    if i < k {
      assert MatchAt(s, i) == None;
      assert Scan(s, i) == Scan(s, i + 1);
      ScanSkip(s, i + 1, k);
    }
  }

  /** A text without `:` or `=` that ends in a non-word character holds no match start. */
  predicate NoCredentialStart(t: string) {
    t != [] && ':' !in t && '=' !in t && !IsWordChar(t[|t| - 1])
  }

  /** Text between two credentials, such as `", "` or `" "`: it also must not continue the value before it. */
  predicate Gap(g: string) {
    NoCredentialStart(g) && !IsWordChar(g[0]) && g[0] != '"'
  }

  /** Text after the last credential: any text without a separator. */
  predicate NoSeparator(t: string) {
    ':' !in t && '=' !in t
  }

  /** No match starts inside a copy of such a text, wherever it sits. */
  lemma NoMatchIn(s: string, a: nat, t: string, j: nat)
    requires NoCredentialStart(t) && a + |t| <= |s| && s[a..a + |t|] == t && a <= j < a + |t|
    ensures MatchAt(s, j) == None
  {
    var e := WordRunEnd(s, j);
    assert s[a + |t| - 1] == t[|t| - 1];
    assert e < a + |t|;
    assert s[e] == t[e - a];
  }

  /** No match starts in a text without a separator that runs to the end. */
  lemma NoMatchInTail(s: string, a: nat, t: string, j: nat)
    requires NoSeparator(t) && a <= |s| && s[a..] == t && a <= j < |s|
    ensures MatchAt(s, j) == None
  {
    var e := WordRunEnd(s, j);
    if e < |s| {
      assert s[e] == t[e - a];
    }
  }

  lemma ScanTail(s: string, a: nat, t: string)
    requires NoSeparator(t) && a <= |s| && s[a..] == t
    ensures Scan(s, a) == []
  {
    forall j | a <= j < |s| ensures MatchAt(s, j) == None {
      NoMatchInTail(s, a, t, j);
    }
    ScanSkip(s, a, |s|);
  }

  /** `Bookland-Token `: its word runs end in `-` or a space, and it has no separator. */
  lemma SchemePrefixNoCredential()
    ensures NoCredentialStart(SchemePrefix)
  {
    assert ':' !in SchemePrefix && '=' !in SchemePrefix;
    assert !IsWordChar(SchemePrefix[|SchemePrefix| - 1]);
  }

  /** A word that sits at `i` and is not followed by a word character is the run from `i`. */
  lemma WordRunOf(s: string, i: nat, w: string)
    requires IsWord(w) && i + |w| <= |s| && s[i..i + |w|] == w
    requires i + |w| == |s| || !IsWordChar(s[i + |w|])
    ensures WordRunEnd(s, i) == i + |w|
  {
    assert forall k :: i <= k < i + |w| ==> s[k] == w[k - i];
  }

  /** An optional character: the optional space and quotes of a credential. */
  function Opt(present: bool, c: char): string {
    if present then [c] else []
  }

  /**
   * A credential as a client writes it: the name, `:` or `=`, an optional
   * space, an optional opening quote, the value and an optional closing
   * quote. The two quotes are independent of each other, as in the pattern.
   */
  datatype Credential = Credential(name: string, sep: char, spaced: bool, open: bool, value: string, close: bool)

  predicate WellFormed(c: Credential) {
    IsWord(c.name) && IsWord(c.value) && (c.sep == ':' || c.sep == '=')
  }

  /** The text of credential `c` followed by `rest`. */
  function Written(c: Credential, rest: string): string {
    c.name + ([c.sep] + (Opt(c.spaced, ' ') + (Opt(c.open, '"') + (c.value + (Opt(c.close, '"') + rest)))))
  }

  /**
   * What may follow a credential so that the match ends where the credential
   * does: after a closing quote anything; otherwise the end, or a character
   * that neither extends the value nor closes it.
   */
  predicate EndsValue(rest: string, close: bool) {
    close || rest == [] || (!IsWordChar(rest[0]) && rest[0] != '"')
  }

  lemma SuffixAfter(s: string, i: nat, a: string, b: string)
    requires i <= |s| && s[i..] == a + b
    ensures i + |a| <= |s| && s[i + |a|..] == b
  {
    assert s[i + |a|..] == s[i..][|a|..];
  }

  /** Where the optional space and the opening quote of a credential tail sit. */
  lemma OpeningLayout(s: string, j: nat, j1: nat, j2: nat, spaced: bool, open: bool, tail: string)
    requires tail != [] && IsWordChar(tail[0])
    requires j <= |s| && s[j..] == Opt(spaced, ' ') + (Opt(open, '"') + tail)
    requires j1 == (if spaced then j + 1 else j) && j2 == (if open then j1 + 1 else j1)
    ensures j < |s| && s[j] == ' ' <==> spaced
    ensures j1 < |s| && s[j1] == '"' <==> open
    ensures j2 <= |s| && s[j2..] == tail
  {
    var q := Opt(open, '"');
    assert (q + tail)[0] != ' ' by {
      if !open {
        assert (q + tail)[0] == tail[0];
      }
    }
    OptLayout(s, j, spaced, ' ', q + tail);
    OptLayout(s, j1, open, '"', tail);
  }

  /** An optional character `c` followed by a text that does not start with `c`. */
  lemma OptLayout(s: string, j: nat, present: bool, c: char, rest: string)
    requires j <= |s| && s[j..] == Opt(present, c) + rest
    requires rest == [] || rest[0] != c
    ensures j < |s| && s[j] == c <==> present
    ensures var k := if present then j + 1 else j;
      k <= |s| && s[k..] == rest
  {
    SuffixAfter(s, j, Opt(present, c), rest);
    if present {
      assert s[j] == s[j..][0];
    } else if j < |s| {
      assert s[j..] == rest;
      assert s[j] == rest[0];
    }
  }

  /** Where the value and the closing quote of a credential tail sit. */
  lemma ClosingLayout(s: string, j2: nat, value: string, close: bool, rest: string) returns (v: nat, end: nat)
    requires IsWord(value) && EndsValue(rest, close)
    requires j2 <= |s| && s[j2..] == value + (Opt(close, '"') + rest)
    ensures v == j2 + |value| <= |s| && s[j2..v] == value
    ensures v == |s| || !IsWordChar(s[v])
    ensures end == (if v < |s| && s[v] == '"' then v + 1 else v)
    ensures end <= |s| && s[end..] == rest
  {
    v := j2 + |value|;
    end := if close then v + 1 else v;
    assert s[j2..v] == s[j2..][..|value|];
    SuffixAfter(s, j2, value, Opt(close, '"') + rest);
    if close {
      SuffixAfter(s, v, ['"'], rest);
      assert s[v] == s[v..][0];
    } else if v < |s| {
      assert s[v] == rest[0];
    }
  }

  /** `ValueAt` from where the optional characters and the value run sit. */
  lemma ValueAtIntro(s: string, j: nat, j1: nat, j2: nat, v: nat, end: nat)
    requires j <= |s|
    requires j1 == (if j < |s| && s[j] == ' ' then j + 1 else j)
    requires j2 == (if j1 < |s| && s[j1] == '"' then j1 + 1 else j1)
    requires j2 < v <= |s| && WordRunEnd(s, j2) == v
    requires end == (if v < |s| && s[v] == '"' then v + 1 else v)
    ensures ValueAt(s, j) == Some((s[j2..v], end))
  {
  }

  /** Where the optional characters, the value and the closing quote of a credential tail sit. */
  lemma TailLayout(s: string, j: nat, spaced: bool, open: bool, value: string, close: bool, rest: string)
    returns (j1: nat, j2: nat, v: nat, end: nat)
    requires IsWord(value) && EndsValue(rest, close)
    requires j <= |s| && s[j..] == Opt(spaced, ' ') + (Opt(open, '"') + (value + (Opt(close, '"') + rest)))
    ensures j1 == (if j < |s| && s[j] == ' ' then j + 1 else j)
    ensures j2 == (if j1 < |s| && s[j1] == '"' then j1 + 1 else j1)
    ensures v == j2 + |value| <= |s| && s[j2..v] == value
    ensures v == |s| || !IsWordChar(s[v])
    ensures end == (if v < |s| && s[v] == '"' then v + 1 else v)
    ensures end <= |s| && s[end..] == rest
  {
    j1 := if spaced then j + 1 else j;
    j2 := if open then j1 + 1 else j1;
    var tail := value + (Opt(close, '"') + rest);
    assert tail[0] == value[0];
    OpeningLayout(s, j, j1, j2, spaced, open, tail);
    v, end := ClosingLayout(s, j2, value, close, rest);
  }

  lemma ValueAtFrom(s: string, j: nat, j1: nat, j2: nat, v: nat, end: nat, value: string)
    requires j <= |s|
    requires j1 == (if j < |s| && s[j] == ' ' then j + 1 else j)
    requires j2 == (if j1 < |s| && s[j1] == '"' then j1 + 1 else j1)
    requires IsWord(value) && v == j2 + |value| <= |s| && s[j2..v] == value
    requires v == |s| || !IsWordChar(s[v])
    requires end == (if v < |s| && s[v] == '"' then v + 1 else v)
    ensures ValueAt(s, j) == Some((value, end))
  {
    WordRunOf(s, j2, value);
    ValueAtIntro(s, j, j1, j2, v, end);
  }

  /** `MatchAt` from where every part of a credential sits. */
  lemma MatchFrom(s: string, p: nat, e: nat, j1: nat, j2: nat, v: nat, end: nat, name: string, value: string)
    requires IsWord(name) && e == p + |name| < |s| && s[p..e] == name && (s[e] == ':' || s[e] == '=')
    requires j1 == (if e + 1 < |s| && s[e + 1] == ' ' then e + 1 + 1 else e + 1)
    requires j2 == (if j1 < |s| && s[j1] == '"' then j1 + 1 else j1)
    requires IsWord(value) && v == j2 + |value| <= |s| && s[j2..v] == value
    requires v == |s| || !IsWordChar(s[v])
    requires end == (if v < |s| && s[v] == '"' then v + 1 else v)
    ensures MatchAt(s, p) == Some(Match(name, value, end))
  {
    WordRunOf(s, p, name);
    ValueAtFrom(s, e + 1, j1, j2, v, end, value);
    MatchAtUnfold(s, p, e, value, end);
  }

  lemma MatchAtUnfold(s: string, i: nat, e: nat, value: string, end: nat)
    requires i < e < |s| && WordRunEnd(s, i) == e && (s[e] == ':' || s[e] == '=')
    requires ValueAt(s, e + 1) == Some((value, end))
    ensures MatchAt(s, i) == Some(Match(s[i..e], value, end))
  {
  }

  /** Where the name and the separator of a credential sit. */
  lemma NameLayout(s: string, p: nat, e: nat, name: string, sep: char, rest: string)
    requires e == p + |name|
    requires p <= |s| && s[p..] == name + ([sep] + rest)
    ensures e < |s| && s[p..e] == name && s[e] == sep
    ensures s[e + 1..] == rest
  {
    SuffixAfter(s, p, name, [sep] + rest);
    SuffixAfter(s, e, [sep], rest);
    assert s[e] == s[e..][0];
    assert s[p..e] == s[p..][..|name|];
  }

  /**
   * Every way of writing a credential is matched: at the start of a written
   * credential followed by text that does not continue it, the pattern
   * captures exactly its name and value and ends where the credential does.
   */
  lemma MatchOneCredential(s: string, p: nat, c: Credential, rest: string) returns (end: nat)
    requires WellFormed(c) && EndsValue(rest, c.close)
    requires p <= |s| && s[p..] == Written(c, rest)
    ensures end <= |s| && s[end..] == rest
    ensures MatchAt(s, p) == Some(Match(c.name, c.value, end))
  {
    var e := p + |c.name|;
    NameLayout(s, p, e, c.name, c.sep, Opt(c.spaced, ' ') + (Opt(c.open, '"') + (c.value + (Opt(c.close, '"') + rest))));
    var j1, j2, v;
    j1, j2, v, end := TailLayout(s, e + 1, c.spaced, c.open, c.value, c.close, rest);
    MatchFrom(s, p, e, j1, j2, v, end, c.name, c.value);
  }

  /** `s[a..]` is an optional `c` followed by the text after it. */
  lemma OptStep(s: string, a: nat, present: bool, c: char)
    requires a <= |s| && (present <==> a < |s| && s[a] == c)
    ensures var b := if present then a + 1 else a;
      b <= |s| && s[a..] == Opt(present, c) + s[b..]
  {
    if present {
      assert s[a..] == [s[a]] + s[a + 1..];
    }
  }

  lemma SplitAt(s: string, a: nat, b: nat)
    requires a <= b <= |s|
    ensures s[a..] == s[a..b] + s[b..]
  {
  }

  /** The optional space and opening quote that `ValueAt` takes at `j`. */
  lemma OpeningSound(s: string, j: nat) returns (spaced: bool, open: bool, j2: nat)
    requires j <= |s|
    ensures var j1 := if j < |s| && s[j] == ' ' then j + 1 else j;
      j2 == (if j1 < |s| && s[j1] == '"' then j1 + 1 else j1)
    ensures j2 <= |s| && s[j..] == Opt(spaced, ' ') + (Opt(open, '"') + s[j2..])
  {
    spaced := j < |s| && s[j] == ' ';
    var j1 := if spaced then j + 1 else j;
    open := j1 < |s| && s[j1] == '"';
    j2 := if open then j1 + 1 else j1;
    OptStep(s, j1, open, '"');
    OptStep(s, j, spaced, ' ');
  }

  /** The value run from `j2` to `v` and the optional closing quote that `ValueAt` takes. */
  lemma ClosingSound(s: string, j2: nat, v: nat) returns (close: bool, end: nat)
    requires j2 <= v <= |s| && v == WordRunEnd(s, j2)
    ensures end == (if v < |s| && s[v] == '"' then v + 1 else v)
    ensures end <= |s| && s[j2..] == s[j2..v] + (Opt(close, '"') + s[end..])
    ensures EndsValue(s[end..], close)
  {
    close := v < |s| && s[v] == '"';
    end := if close then v + 1 else v;
    OptStep(s, v, close, '"');
    SplitAt(s, j2, v);
    if !close && end < |s| {
      assert s[end..][0] == s[v];
    }
  }

  /** Every value `ValueAt` captures sits in a credential tail that ends where the match does. */
  lemma ValueAtSound(s: string, j: nat) returns (spaced: bool, open: bool, close: bool)
    requires j <= |s| && ValueAt(s, j).Some?
    ensures var (value, end) := ValueAt(s, j).value;
      s[j..] == Opt(spaced, ' ') + (Opt(open, '"') + (value + (Opt(close, '"') + s[end..]))) &&
      EndsValue(s[end..], close)
  {
    var j2;
    spaced, open, j2 := OpeningSound(s, j);
    var v := WordRunEnd(s, j2);
    var end;
    close, end := ClosingSound(s, j2, v);
    assert ValueAt(s, j) == Some((s[j2..v], end));
  }

  /**
   * Every match is a written credential: the text from the match start is a
   * well-formed credential with the captured name and value, followed by the
   * text after the match, which does not continue it.
   */
  lemma MatchAtSound(s: string, i: nat)
    requires i <= |s| && MatchAt(s, i).Some?
    ensures var m := MatchAt(s, i).value;
      exists c :: WellFormed(c) && c.name == m.name && c.value == m.value &&
        s[i..] == Written(c, s[m.end..]) && EndsValue(s[m.end..], c.close)
  {
    var m := MatchAt(s, i).value;
    var e := WordRunEnd(s, i);
    assert ValueAt(s, e + 1) == Some((m.value, m.end)) && m.name == s[i..e];
    var c := MatchWitness(s, i, e, m);
  }

  /** The pattern matches at `i` exactly when a well-formed credential is written there. */
  lemma MatchAtIff(s: string, i: nat)
    requires i <= |s|
    ensures MatchAt(s, i).Some? <==>
      exists c, rest :: WellFormed(c) && EndsValue(rest, c.close) && s[i..] == Written(c, rest)
  {
    if MatchAt(s, i).Some? {
      MatchAtSound(s, i);
    }
    if exists c, rest :: WellFormed(c) && EndsValue(rest, c.close) && s[i..] == Written(c, rest) {
      var c, rest :| WellFormed(c) && EndsValue(rest, c.close) && s[i..] == Written(c, rest);
      var end := MatchOneCredential(s, i, c, rest);
    }
  }

  /** The credential a match at `i` reads, given where its name ends. */
  lemma MatchWitness(s: string, i: nat, e: nat, m: Match) returns (c: Credential)
    requires i < e < |s| && s[i..e] == m.name && (s[e] == ':' || s[e] == '=')
    requires IsWord(m.name) && IsWord(m.value) && ValueAt(s, e + 1) == Some((m.value, m.end))
    ensures WellFormed(c) && c.name == m.name && c.value == m.value
    ensures s[i..] == Written(c, s[m.end..]) && EndsValue(s[m.end..], c.close)
  {
    var spaced, open, close := ValueAtSound(s, e + 1);
    c := Credential(m.name, s[e], spaced, open, m.value, close);
    NameSound(s, i, e, c, s[m.end..]);
  }

  /** The name and the separator in front of a credential tail. */
  lemma NameSound(s: string, i: nat, e: nat, c: Credential, rest: string)
    requires i < e < |s| && s[i..e] == c.name && s[e] == c.sep
    requires s[e + 1..] == Opt(c.spaced, ' ') + (Opt(c.open, '"') + (c.value + (Opt(c.close, '"') + rest)))
    ensures s[i..] == Written(c, rest)
  {
    SplitAt(s, i, e);
    assert s[e..] == [s[e]] + s[e + 1..];
  }

  /** The text of the credentials `cs`, separated by `gap`, followed by `tail`. */
  function Joined(cs: seq<Credential>, gap: string, tail: string): string
    requires cs != []
    decreases |cs|
  {
    if |cs| == 1 then Written(cs[0], tail) else Written(cs[0], gap + Joined(cs[1..], gap, tail))
  }

  /** The (name, value) pairs of the credentials, in order. */
  function Pairs(cs: seq<Credential>): seq<(string, string)> {
    seq(|cs|, k requires 0 <= k < |cs| => (cs[k].name, cs[k].value))
  }

  /** A match at `p` is the first pair scanned from `p`. */
  lemma ScanAt(s: string, p: nat, m: Match)
    requires p < |s| && MatchAt(s, p) == Some(m)
    ensures Scan(s, p) == [(m.name, m.value)] + Scan(s, m.end)
  {
  }

  /** A written credential scans as its pair, then scanning goes on where it ends. */
  lemma ScanFirst(s: string, p: nat, c: Credential, rest: string) returns (end: nat)
    requires WellFormed(c) && EndsValue(rest, c.close)
    requires p <= |s| && s[p..] == Written(c, rest)
    ensures end == p + Width(c) <= |s| && s[end..] == rest
    ensures Scan(s, p) == [(c.name, c.value)] + Scan(s, end)
  {
    end := MatchOneCredential(s, p, c, rest);
    WrittenThen(c, rest);
    assert |s[p..]| == Width(c) + |rest|;
    ScanAt(s, p, Match(c.name, c.value, end));
  }

  lemma GapLayout(s: string, q: nat, gap: string, after: string)
    requires q <= |s| && s[q..] == gap + after
    ensures q + |gap| <= |s| && s[q..q + |gap|] == gap && s[q + |gap|..] == after
  {
    SuffixAfter(s, q, gap, after);
    assert s[q..q + |gap|] == s[q..][..|gap|];
  }

  /** The pattern matches nowhere in a gap. */
  lemma GapNoMatch(s: string, q: nat, gap: string)
    requires NoCredentialStart(gap) && q + |gap| <= |s| && s[q..q + |gap|] == gap
    ensures forall j :: q <= j < q + |gap| ==> MatchAt(s, j) == None
  {
    forall j | q <= j < q + |gap| ensures MatchAt(s, j) == None {
      NoMatchIn(s, q, gap, j);
    }
  }

  lemma PairsCons(cs: seq<Credential>)
    requires cs != []
    ensures Pairs(cs) == [(cs[0].name, cs[0].value)] + Pairs(cs[1..])
  {
  }

  lemma Chain<T>(x: seq<T>, a: seq<T>, b: seq<T>, y: seq<T>, first: T)
    requires x == [first] + a && a == b && y == [first] + b
    ensures x == y
  {
  }

  /** The length of a credential's own text. */
  function Width(c: Credential): nat {
    |Written(c, [])|
  }

  lemma WrittenThen(c: Credential, rest: string)
    ensures Written(c, rest) == Written(c, []) + rest
  {
  }

  /**
   * Credentials `cs` laid out in `s` from `p`: each one's text, then `gap`
   * before the next, and `tail` after the last.
   */
  predicate LaidOut(s: string, p: nat, cs: seq<Credential>, gap: string, tail: string)
    requires cs != []
    decreases |cs|, 1
  {
    p <= |s| &&
    if |cs| == 1 then s[p..] == Written(cs[0], tail) else LaidOutMore(s, p, cs, gap, tail)
  }

  /** More than one credential laid out: the first one leads, the others follow. */
  predicate LaidOutMore(s: string, p: nat, cs: seq<Credential>, gap: string, tail: string)
    requires |cs| > 1
    decreases |cs|, 0
  {
    Leads(s, p, cs[0], gap) && LaidOut(s, Next(p, cs[0], gap), cs[1..], gap, tail)
  }

  /** Where the credential after `c` and `gap` starts. */
  function Next(p: nat, c: Credential, gap: string): nat {
    p + Width(c) + |gap|
  }

  /** Credential `c` is written at `p`, followed by `gap`. */
  predicate Leads(s: string, p: nat, c: Credential, gap: string) {
    p <= Next(p, c, gap) <= |s| && s[p..] == Written(c, gap + s[Next(p, c, gap)..])
  }

  lemma {:induction false} JoinedLaidOut(s: string, p: nat, cs: seq<Credential>, gap: string, tail: string)
    requires cs != [] && p <= |s| && s[p..] == Joined(cs, gap, tail)
    ensures LaidOut(s, p, cs, gap, tail)
    decreases |cs|
  {
    if |cs| > 1 {
      var after := Joined(cs[1..], gap, tail);
      WrittenThen(cs[0], gap + after);
      assert s[p..] == (Written(cs[0], []) + gap) + after;
      SuffixAfter(s, p, Written(cs[0], []) + gap, after);
      JoinedLaidOut(s, Next(p, cs[0], gap), cs[1..], gap, tail);
    }
  }

  /** Credentials laid out with gaps scan back as their pairs, in the order written. */
  lemma {:induction false} ScanLaidOut(s: string, p: nat, cs: seq<Credential>, gap: string, tail: string)
    requires cs != [] && forall k :: 0 <= k < |cs| ==> WellFormed(cs[k])
    requires Gap(gap) && NoSeparator(tail) && EndsValue(tail, cs[|cs| - 1].close)
    requires LaidOut(s, p, cs, gap, tail)
    ensures Scan(s, p) == Pairs(cs)
    decreases |cs|
  {
    PairsCons(cs);
    if |cs| == 1 {
      ScanLast(s, p, cs[0], tail);
    } else {
      var n := Next(p, cs[0], gap);
      var q := LaidOutHead(s, p, cs, gap, tail);
      ScanPast(s, p, Match(cs[0].name, cs[0].value, q), n);
      ScanLaidOut(s, n, cs[1..], gap, tail);
      Chain(Scan(s, p), Scan(s, n), Pairs(cs[1..]), Pairs(cs), (cs[0].name, cs[0].value));
    }
  }

  /** The first of several laid-out credentials matches; the pattern skips the gap after it. */
  lemma LaidOutHead(s: string, p: nat, cs: seq<Credential>, gap: string, tail: string) returns (q: nat)
    requires |cs| > 1 && WellFormed(cs[0]) && Gap(gap) && LaidOut(s, p, cs, gap, tail)
    ensures q <= Next(p, cs[0], gap) <= |s|
    ensures MatchAt(s, p) == Some(Match(cs[0].name, cs[0].value, q))
    ensures forall j :: q <= j < Next(p, cs[0], gap) ==> MatchAt(s, j) == None
    ensures LaidOut(s, Next(p, cs[0], gap), cs[1..], gap, tail)
  {
    assert LaidOutMore(s, p, cs, gap, tail);
    q := LeadsMatch(s, p, cs[0], gap);
  }

  /** A credential followed by a gap: the pattern matches the credential, and nowhere in the gap. */
  lemma LeadsMatch(s: string, p: nat, c: Credential, gap: string) returns (q: nat)
    requires WellFormed(c) && Gap(gap) && Leads(s, p, c, gap)
    ensures q <= Next(p, c, gap)
    ensures MatchAt(s, p) == Some(Match(c.name, c.value, q))
    ensures forall j :: q <= j < Next(p, c, gap) ==> MatchAt(s, j) == None
  {
    q := LeadsFirst(s, p, c, gap);
    GapLayout(s, q, gap, s[Next(p, c, gap)..]);
    GapNoMatch(s, q, gap);
  }

  lemma LeadsFirst(s: string, p: nat, c: Credential, gap: string) returns (q: nat)
    requires WellFormed(c) && Gap(gap) && Leads(s, p, c, gap)
    ensures q + |gap| == Next(p, c, gap)
    ensures MatchAt(s, p) == Some(Match(c.name, c.value, q))
    ensures q <= |s| && s[q..] == gap + s[Next(p, c, gap)..]
  {
    var n := Next(p, c, gap);
    assert (gap + s[n..])[0] == gap[0];
    q := MatchOneCredential(s, p, c, gap + s[n..]);
    assert q + |gap| == n by {
      WrittenThen(c, gap + s[n..]);
      assert |s[p..]| == Width(c) + |gap + s[n..]|;
    }
  }

  /** A match at `p`, then no match up to `n`: one pair, then scanning resumes at `n`. */
  lemma ScanPast(s: string, p: nat, m: Match, n: nat)
    requires p <= |s| && MatchAt(s, p) == Some(m) && m.end <= n <= |s|
    requires forall j :: m.end <= j < n ==> MatchAt(s, j) == None
    ensures Scan(s, p) == [(m.name, m.value)] + Scan(s, n)
  {
    ScanSkip(s, m.end, n);
  }

  /** A last credential followed by text without a separator scans as its pair alone. */
  lemma ScanLast(s: string, p: nat, c: Credential, tail: string)
    requires WellFormed(c) && NoSeparator(tail) && EndsValue(tail, c.close)
    requires p <= |s| && s[p..] == Written(c, tail)
    ensures Scan(s, p) == [(c.name, c.value)]
  {
    var q := ScanFirst(s, p, c, tail);
    ScanTail(s, q, tail);
  }

  /** Credentials separated by gaps scan back as their pairs, in the order written. */
  lemma ScanJoined(s: string, p: nat, cs: seq<Credential>, gap: string, tail: string)
    requires cs != [] && forall k :: 0 <= k < |cs| ==> WellFormed(cs[k])
    requires Gap(gap) && NoSeparator(tail) && EndsValue(tail, cs[|cs| - 1].close)
    requires p <= |s| && s[p..] == Joined(cs, gap, tail)
    ensures Scan(s, p) == Pairs(cs)
  {
    JoinedLaidOut(s, p, cs, gap, tail);
    ScanLaidOut(s, p, cs, gap, tail);
  }

  /**
   * A header of credentials separated by gaps yields the hash of their pairs:
   * a name written more than once keeps the value written last.
   */
  lemma CredentialsJoined(cs: seq<Credential>, gap: string, tail: string)
    requires cs != [] && forall k :: 0 <= k < |cs| ==> WellFormed(cs[k])
    requires Gap(gap) && NoSeparator(tail) && EndsValue(tail, cs[|cs| - 1].close)
    ensures Credentials(SchemePrefix + Joined(cs, gap, tail)) == FromPairs(Pairs(cs))
    ensures forall k :: Lookup(Credentials(SchemePrefix + Joined(cs, gap, tail)), k) == LastValue(Pairs(cs), k)
  {
    var s := SchemePrefix + Joined(cs, gap, tail);
    var p := |SchemePrefix|;
    SchemePrefixNoCredential();
    GapLayout(s, 0, SchemePrefix, Joined(cs, gap, tail));
    GapNoMatch(s, 0, SchemePrefix);
    ScanSkip(s, 0, p);
    ScanJoined(s, p, cs, gap, tail);
  }

  /**
   * A header carrying one credential, written `name=value` or `name:value`,
   * with or without a space after the separator, with or without either
   * quote, and followed by any text without a separator that does not
   * continue the value, yields exactly that one credential.
   */
  lemma OneCredential(c: Credential, tail: string)
    requires WellFormed(c) && NoSeparator(tail) && EndsValue(tail, c.close)
    ensures Credentials(SchemePrefix + Written(c, tail)) == [(c.name, c.value)]
  {
    CredentialsJoined([c], " ", tail);
    assert Joined([c], " ", tail) == Written(c, tail);
    assert Pairs([c]) == [(c.name, c.value)];
    assert FromPairs([(c.name, c.value)]) == Store([], c.name, c.value);
  }

  /** ASCII white space: space, tab, line feed, vertical tab, form feed, carriage return. */
  predicate IsSpace(c: char) {
    c == ' ' || c == '\t' || c == '\n' || c == '\U{B}' || c == '\U{C}' || c == '\r'
  }

  /**
   * `blank?`: nil, or a string of white space only. Only ASCII white space is
   * listed, while Rails also counts Unicode spaces as blank; that makes no
   * difference here, because a captured value is a run of word characters
   * (see `CredentialNeverBlank`).
   */
  predicate Blank(v: Option<string>): (r: bool)
    ensures v.None? ==> r
    ensures v.Some? && IsWord(v.value) ==> !r
  {
    if v.None? then true
    else
      assert IsWord(v.value) ==> IsWordChar(v.value[0]);
      forall k :: 0 <= k < |v.value| ==> IsSpace(v.value[k])
  }

  /** A captured credential value is never blank, so "blank" only ever means "absent". */
  lemma CredentialNeverBlank(auth: string, name: string)
    ensures Blank(Lookup(Credentials(auth), name)) <==> Lookup(Credentials(auth), name) == None
  {
    var ps := Scan(auth, 0);
    ScanWords(auth, 0);
    if LastValue(ps, name).Some? {
      LastValueIsLast(ps, name);
      var i :| IsLastWithKey(ps, name, i) && ps[i].1 == LastValue(ps, name).value;
      assert IsWord(ps[i].1);
      assert IsWordChar(ps[i].1[0]) && !IsSpace(ps[i].1[0]);
    }
  }

  /**
   * `api_key`: the activated key named by the `api_key` credential, if any;
   * `activated` stands for `ApiKey.activated`.
   */
  function ApiKey(auth: string, activated: set<string>): (r: Option<string>)
    ensures r.Some? <==>
      Lookup(Credentials(auth), "api_key").Some? && Lookup(Credentials(auth), "api_key").value in activated
    ensures r.Some? ==> r == Lookup(Credentials(auth), "api_key")
  {
    var v := Lookup(Credentials(auth), "api_key");
    CredentialNeverBlank(auth, "api_key");
    if Blank(v) then None
    else if v.value in activated then Some(v.value)
    else None
  }

  /** Both before-actions pass: the scheme is right and the key is activated. */
  predicate Accepted(auth: string, activated: set<string>): (r: bool)
    ensures r <==> (SchemeMatches(auth) &&
      Lookup(Credentials(auth), "api_key").Some? && Lookup(Credentials(auth), "api_key").value in activated)
  {
    SchemeMatches(auth) && ApiKey(auth, activated).Some?
  }

  /** The `WWW-Authenticate` challenge sent with every refusal. */
  function Challenge(realm: string): (r: string)
    ensures IsPrefix(SchemePrefix, r)
    ensures IsSuffix("\"", r)
  {
    AuthScheme + " realm=\"" + realm + "\""
  }

  /** A single-word realm can be read back from the challenge with the credential pattern. */
  lemma ChallengeRoundTrip(realm: string)
    requires IsWord(realm)
    ensures SchemeMatches(Challenge(realm))
    ensures Credentials(Challenge(realm)) == [("realm", realm)]
  {
    var c := Credential("realm", '=', false, true, realm, true);
    assert Challenge(realm) == SchemePrefix + Written(c, "");
    assert IsWord("realm");
    OneCredential(c, "");
    assert IsPrefix(SchemePrefix, Challenge(realm)[0..]);
  }

  /**
   * The realm actually sent, `Client Realm`, is two words: the pattern reads
   * back only its first word, as an unclosed quoted value.
   */
  lemma ChallengeClientRealm()
    ensures SchemeMatches(Challenge(ClientRealm))
    ensures Credentials(Challenge(ClientRealm)) == [("realm", "Client")]
  {
    var c := Credential("realm", '=', false, true, "Client", false);
    var tail := " Realm\"";
    assert Challenge(ClientRealm) == SchemePrefix + Written(c, tail);
    assert IsWord("realm") && IsWord("Client");
    assert NoSeparator(tail);
    OneCredential(c, tail);
    assert IsPrefix(SchemePrefix, Challenge(ClientRealm)[0..]);
  }

  /** A name repeated in one header keeps its first position and the value written last. */
  lemma RepeatedCredential()
    ensures Credentials(SchemePrefix + "api_key=a api_key=b other=c api_key=d") ==
      [("api_key", "d"), ("other", "c")]
  {
    var cs := RepeatedLayout();
    assert IsWord("api_key") && IsWord("other") && IsWord("a") && IsWord("b") && IsWord("c") && IsWord("d");
    assert forall k :: 0 <= k < |cs| ==> WellFormed(cs[k]);
    assert Gap(" ");
    CredentialsJoined(cs, " ", "");
    assert Pairs(cs) == [("api_key", "a"), ("api_key", "b"), ("other", "c"), ("api_key", "d")];
    RepeatedPairs();
  }

  /** Four unquoted credentials separated by single spaces. */
  lemma RepeatedLayout() returns (cs: seq<Credential>)
    ensures cs == [Plain("api_key", "a"), Plain("api_key", "b"), Plain("other", "c"), Plain("api_key", "d")]
    ensures Joined(cs, " ", "") == "api_key=a api_key=b other=c api_key=d"
  {
    var c1, c2, c3, c4 := Plain("api_key", "a"), Plain("api_key", "b"), Plain("other", "c"), Plain("api_key", "d");
    cs := [c1] + ([c2] + ([c3] + [c4]));
    PlainLast("api_key", "d", " ", "");
    PlainCons("other", "c", [c4], " ", "");
    PlainCons("api_key", "b", [c3] + [c4], " ", "");
    PlainCons("api_key", "a", [c2] + ([c3] + [c4]), " ", "");
    RepeatedText();
  }

  /** `name=value`, unspaced and unquoted. */
  function Plain(name: string, value: string): Credential {
    Credential(name, '=', false, false, value, false)
  }

  lemma PlainLast(name: string, value: string, gap: string, tail: string)
    ensures Joined([Plain(name, value)], gap, tail) == name + ("=" + (value + tail))
  {
  }

  lemma PlainCons(name: string, value: string, cs: seq<Credential>, gap: string, tail: string)
    requires cs != []
    ensures Joined([Plain(name, value)] + cs, gap, tail) == name + ("=" + (value + (gap + Joined(cs, gap, tail))))
  {
    assert ([Plain(name, value)] + cs)[1..] == cs;
  }

  lemma RepeatedText()
    ensures "api_key" + ("=" + ("a" + (" " + ("api_key" + ("=" + ("b" + (" " + ("other" + ("=" + ("c" + (" " + ("api_key" + ("=" + ("d" + "")))))))))))))) == "api_key=a api_key=b other=c api_key=d"
  {
  }

  lemma RepeatedPairs()
    ensures FromPairs([("api_key", "a"), ("api_key", "b"), ("other", "c"), ("api_key", "d")]) ==
      [("api_key", "d"), ("other", "c")]
  {
    var ps := [("api_key", "a"), ("api_key", "b"), ("other", "c"), ("api_key", "d")];
    assert ps[..0] == [];
    assert FromPairs(ps[..1]) == [("api_key", "a")];
    assert ps[..2][..1] == ps[..1];
    assert FromPairs(ps[..2]) == [("api_key", "b")];
    assert ps[..3][..2] == ps[..2];
    assert "api_key" != "other";
    assert FromPairs(ps[..3]) == Store([("api_key", "b")], "other", "c");
    assert Store([("api_key", "b")], "other", "c") == [("api_key", "b")] + Store([], "other", "c");
    assert FromPairs(ps[..3]) == [("api_key", "b"), ("other", "c")];
    assert FromPairs(ps) == Store([("api_key", "b"), ("other", "c")], "api_key", "d");
    assert ps[..3] == ps[..|ps| - 1];
  }

  /** The controller state the two before-actions read and write. */
  class Controller {
    /** `authorization_request` */
    const authorization: string
    /** The keys of `ApiKey.activated`. */
    const activatedKeys: set<string>
    var headers: map<string, string>
    var status: int
    /** Whether a response was rendered, which halts the before-action chain. */
    var performed: bool

    constructor(header: Option<string>, activatedKeys: set<string>)
      ensures authorization == AuthorizationRequest(header) && this.activatedKeys == activatedKeys
      ensures headers == map[] && status == StatusOk && !performed
    {
      authorization := AuthorizationRequest(header);
      this.activatedKeys := activatedKeys;
      headers := map[];
      status := StatusOk;
      performed := false;
    }

    /** `unauthorized!(realm)`; rendering twice is an error in Rails. */
    method Unauthorize(realm: string)
      requires !performed
      modifies this
      ensures headers == old(headers)["WWW-Authenticate" := Challenge(realm)]
      ensures status == StatusUnauthorized && performed
    {
      headers := headers["WWW-Authenticate" := Challenge(realm)];
      status := StatusUnauthorized;
      performed := true;
    }

    /** `validate_auth_scheme` */
    method ValidateAuthScheme()
      requires !performed
      modifies this
      ensures SchemeMatches(authorization) ==> headers == old(headers) && status == old(status) && !performed
      ensures !SchemeMatches(authorization) ==>
        headers == old(headers)["WWW-Authenticate" := Challenge(ClientRealm)] && status == StatusUnauthorized && performed
    {
      if !SchemeMatches(authorization) {
        Unauthorize(ClientRealm);
      }
    }

    /** `authenticate_client` */
    method AuthenticateClient()
      requires !performed
      modifies this
      ensures ApiKey(authorization, activatedKeys).Some? ==> headers == old(headers) && status == old(status) && !performed
      ensures ApiKey(authorization, activatedKeys).None? ==>
        headers == old(headers)["WWW-Authenticate" := Challenge(ClientRealm)] && status == StatusUnauthorized && performed
    {
      if ApiKey(authorization, activatedKeys).None? {
        Unauthorize(ClientRealm);
      }
    }

    /** The before-action chain: the scheme check, then, unless it rendered, the key check. */
    method RunBeforeActions()
      requires !performed && headers == map[] && status == StatusOk
      modifies this
      ensures Accepted(authorization, activatedKeys) ==> status == StatusOk && headers == map[] && !performed
      ensures !Accepted(authorization, activatedKeys) ==>
        status == StatusUnauthorized && headers == map["WWW-Authenticate" := Challenge(ClientRealm)] && performed
    {
      ValidateAuthScheme();
      if !performed {
        AuthenticateClient();
      }
    }
  }

  /** The client authentication test vectors: an empty header, an unknown key, an activated key. */
  lemma AuthenticationExamples(key: string, activated: set<string>)
    requires IsWord(key)
    ensures !Accepted("", activated)
    ensures Accepted(SchemePrefix + "api_key=" + key, activated) <==> key in activated
  {
    SchemeMatchesOneLine("");
    var s := SchemePrefix + "api_key=" + key;
    assert IsWord("api_key");
    var c := Credential("api_key", '=', false, false, key, false);
    assert s == SchemePrefix + Written(c, "");
    OneCredential(c, "");
    assert IsPrefix(SchemePrefix, s[0..]);
  }
}
