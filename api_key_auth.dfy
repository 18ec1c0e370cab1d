/**
 * The API-key gate: the login state machine with its fixed credential table,
 * the rewrite of the `.env` text that installs a freshly generated key, and the
 * header check. The clock, the random key and the file contents are parameters.
 */
module ApiKeyAuth {
  import opened Outcomes

  /** `DURACION_TOKEN`: seconds a login stays valid. */
  const TokenLifetime := 600

  /** `usuarios_validos`: user name to password. */
  const ValidUsers: map<string, string> := map[
    "nicolas.duran@eam.edu.co" := "NicolasDuranGarces",
    "d@p.com" := "1234",
    "c@d.com" := "1234"]

  // ---------------------------------------------------------------------------
  // Installing a key in the `.env` text

  const KeyPrefix := "API_KEY="

  /** A literal the substitution pattern starts with: not empty, on one line. */
  predicate OneLinePrefix(p: string) {
    p != [] && '\n' !in p
  }

  predicate StartsWith(s: string, p: string) {
    |p| <= |s| && s[..|p|] == p
  }

  /** Python's substring test `p in s`. */
  predicate Contains(s: string, p: string)
    decreases |s|
  {
    StartsWith(s, p) || (s != [] && Contains(s[1..], p))
  }

  /** What a greedy `.*` leaves of `s`: everything from the first line break on. */
  function FromLineEnd(s: string): (r: string)
    ensures |r| <= |s| && r == s[|s| - |r|..]
    ensures r == [] || r[0] == '\n'
    ensures forall i :: 0 <= i < |s| - |r| ==> s[i] != '\n'
  {
    if s == [] || s[0] == '\n' then s else FromLineEnd(s[1..])
  }

  /**
   * `re.sub(p + ".*", p + key, s)` for a literal `p`: scanning left to right, each
   * occurrence of `p` and the rest of its line become `p` and the key; the scan
   * resumes at the line break.
   */
  function ReplaceLines(s: string, p: string, key: string): string
    requires p != []
    decreases |s|
  {
    if StartsWith(s, p) then p + key + ReplaceLines(FromLineEnd(s[|p|..]), p, key)
    else if s == [] then []
    else [s[0]] + ReplaceLines(s[1..], p, key)
  }

  /** The new `.env` text `generar_api_key` writes: replace the key lines, or append one when there is none. */
  function InstallKey(content: string, key: string): string
  {
    if Contains(content, KeyPrefix) then ReplaceLines(content, KeyPrefix, key)
    else content + "\n" + KeyPrefix + key
  }

  /**
   * Scanning `s` as the substitution does, every `p` it meets is followed by
   * exactly `key` and then a line break or the end of the text.
   */
  predicate LinesCarry(s: string, p: string, key: string)
    requires p != []
    decreases |s|
  {
    if StartsWith(s, p) then
      var rest := s[|p|..];
      StartsWith(rest, key)
      && var after := rest[|key|..];
         (after == [] || after[0] == '\n') && LinesCarry(after, p, key)
    else
      s == [] || LinesCarry(s[1..], p, key)
  }

  /** `secrets.token_urlsafe` draws from letters, digits, `-` and `_`. */
  predicate UrlSafe(key: string) {
    forall i :: 0 <= i < |key| ==>
      'A' <= key[i] <= 'Z' || 'a' <= key[i] <= 'z' || '0' <= key[i] <= '9' || key[i] == '-' || key[i] == '_'
  }

  lemma {:induction false} ContainsWhereStarts(a: string, b: string, p: string)
    requires StartsWith(b, p)
    ensures Contains(a + b, p)
  {
    if a == [] {
      assert a + b == b;
    } else {
      assert (a + b)[1..] == a[1..] + b;
      ContainsWhereStarts(a[1..], b, p);
    }
  }

  lemma {:induction false} ContainsPrefixOf(s: string, p: string, q: string)
    requires Contains(s, p + q)
    ensures Contains(s, p)
  {
    if StartsWith(s, p + q) {
      assert s[..|p|] == (p + q)[..|p|] == p;
    } else {
      ContainsPrefixOf(s[1..], p, q);
    }
  }

  /** Where `p` occurs, the substitution leaves an occurrence of `p` followed by the key. */
  lemma {:induction false} ReplaceInstalls(s: string, p: string, key: string)
    requires p != [] && Contains(s, p)
    ensures Contains(ReplaceLines(s, p, key), p + key)
    decreases |s|
  {
    var r := ReplaceLines(s, p, key);
    if StartsWith(s, p) {
      var tail := ReplaceLines(FromLineEnd(s[|p|..]), p, key);
      assert r == (p + key) + tail;
      assert r[..|p + key|] == p + key;
    } else {
      ReplaceInstalls(s[1..], p, key);
      assert r[1..] == ReplaceLines(s[1..], p, key);
    }
  }

  /** Whichever branch `generar_api_key` takes, the new text holds `API_KEY=<key>`. */
  lemma InstallKeyInstalls(content: string, key: string)
    ensures Contains(InstallKey(content, key), KeyPrefix + key)
  {
    if Contains(content, KeyPrefix) {
      ReplaceInstalls(content, KeyPrefix, key);
    } else {
      assert content + "\n" + KeyPrefix + key == (content + "\n") + (KeyPrefix + key);
      ContainsWhereStarts(content + "\n", KeyPrefix + key, KeyPrefix + key);
    }
  }

  lemma {:induction false} FromLineEndSkips(u: string, v: string)
    requires '\n' !in u
    requires v == [] || v[0] == '\n'
    ensures FromLineEnd(u + v) == v
  {
    if u == [] {
      assert u + v == v;
    } else {
      assert (u + v)[0] == u[0];
      assert (u + v)[1..] == u[1..] + v;
      FromLineEndSkips(u[1..], v);
    }
  }

  /** One step of the substitution where the scan meets `p`. */
  lemma ReplaceAtMatch(s: string, p: string, key: string)
    requires p != [] && StartsWith(s, p)
    ensures ReplaceLines(s, p, key) == p + (key + ReplaceLines(FromLineEnd(s[|p|..]), p, key))
  {
  }

  /** One step of the substitution where the scan copies a character. */
  lemma ReplacePastMiss(s: string, p: string, key: string)
    requires p != [] && !StartsWith(s, p) && s != []
    ensures ReplaceLines(s, p, key) == [s[0]] + ReplaceLines(s[1..], p, key)
  {
  }

  /** One step of the scan `LinesCarry` makes where it meets `p`. */
  lemma CarryAtMatch(s: string, p: string, key: string)
    requires p != [] && StartsWith(s, p)
    ensures LinesCarry(s, p, key) <==>
      var rest := s[|p|..];
      StartsWith(rest, key)
      && var after := rest[|key|..];
         (after == [] || after[0] == '\n') && LinesCarry(after, p, key)
  {
  }

  /** One step of the scan `LinesCarry` makes past a character. */
  lemma CarryPastMiss(s: string, p: string, key: string)
    requires p != [] && !StartsWith(s, p) && s != []
    ensures LinesCarry(s, p, key) <==> LinesCarry(s[1..], p, key)
  {
  }

  lemma SameHead(x: char, t: string, u: string, n: nat)
    requires 0 < n <= |u| + 1 && n - 1 <= |t| && t[..n - 1] == u[..n - 1]
    ensures ([x] + t)[..n] == ([x] + u)[..n]
  {
  }

  lemma {:induction false} ShortTextUnchanged(s: string, p: string, key: string)
    requires p != [] && |s| < |p|
    ensures ReplaceLines(s, p, key) == s
  {
    if s != [] {
      ReplacePastMiss(s, p, key);
      ShortTextUnchanged(s[1..], p, key);
      assert s == [s[0]] + s[1..];
    }
  }

  /** Copying a character that starts no `p` keeps the head the rest of the scan kept. */
  lemma HeadPastMiss(s: string, p: string, key: string, n: nat)
    requires p != [] && !StartsWith(s, p) && 0 < n <= |s|
    requires var t := ReplaceLines(s[1..], p, key); n - 1 <= |t| && t[..n - 1] == s[1..][..n - 1]
    ensures n <= |ReplaceLines(s, p, key)| && ReplaceLines(s, p, key)[..n] == s[..n]
  {
    ReplacePastMiss(s, p, key);
    SameHead(s[0], ReplaceLines(s[1..], p, key), s[1..], n);
    assert s == [s[0]] + s[1..];
  }

  /** Where the scan meets `p`, the output starts with `p`, so its first `n < |p|` characters are the input's. */
  lemma HeadAtMatch(s: string, p: string, key: string, n: nat)
    requires p != [] && StartsWith(s, p) && n < |p|
    ensures n <= |ReplaceLines(s, p, key)| && ReplaceLines(s, p, key)[..n] == s[..n]
  {
    ReplaceAtMatch(s, p, key);
  }

  /** The first `n < |p|` characters pass through the substitution unchanged. */
  lemma {:induction false} HeadUnchanged(s: string, p: string, key: string, n: nat)
    requires p != [] && n < |p| && n <= |s|
    ensures n <= |ReplaceLines(s, p, key)| && ReplaceLines(s, p, key)[..n] == s[..n]
  {
    if StartsWith(s, p) {
      HeadAtMatch(s, p, key, n);
    } else if n > 0 {
      HeadUnchanged(s[1..], p, key, n - 1);
      HeadPastMiss(s, p, key, n);
    }
  }

  /** The substitution output starts with `p` exactly when its input does. */
  lemma KeepsHead(s: string, p: string, key: string)
    requires p != []
    ensures StartsWith(ReplaceLines(s, p, key), p) <==> StartsWith(s, p)
  {
    if StartsWith(s, p) {
      ReplaceAtMatch(s, p, key);
      var x := key + ReplaceLines(FromLineEnd(s[|p|..]), p, key);
      assert (p + x)[..|p|] == p;
    } else if |s| < |p| {
      ShortTextUnchanged(s, p, key);
    } else {
      ReplacePastMiss(s, p, key);
      HeadUnchanged(s[1..], p, key, |p| - 1);
      SameHead(s[0], ReplaceLines(s[1..], p, key), s[1..], |p|);
      assert s == [s[0]] + s[1..];
    }
  }

  /** A text that is empty or starts a line comes out of the substitution the same way. */
  lemma StaysAtLineStart(t: string, p: string, key: string)
    requires OneLinePrefix(p)
    requires t == [] || t[0] == '\n'
    ensures var x := ReplaceLines(t, p, key); x == [] || x[0] == '\n'
  {
    if t != [] {
      assert p[0] in p;
      assert !StartsWith(t, p);
      ReplacePastMiss(t, p, key);
    }
  }

  /** After the substitution every occurrence it meets carries the new key to the end of its line. */
  lemma {:induction false} ReplaceCarries(s: string, p: string, key: string)
    requires OneLinePrefix(p)
    ensures LinesCarry(ReplaceLines(s, p, key), p, key)
    decreases |s|
  {
    var r := ReplaceLines(s, p, key);
    if StartsWith(s, p) {
      var t := FromLineEnd(s[|p|..]);
      var x := ReplaceLines(t, p, key);
      ReplaceAtMatch(s, p, key);
      assert r == p + (key + x);
      assert r[..|p|] == p && r[|p|..] == key + x;
      assert (key + x)[..|key|] == key && (key + x)[|key|..] == x;
      StaysAtLineStart(t, p, key);
      ReplaceCarries(t, p, key);
      CarryAtMatch(r, p, key);
    } else if s != [] {
      KeepsHead(s, p, key);
      ReplacePastMiss(s, p, key);
      assert r[1..] == ReplaceLines(s[1..], p, key);
      ReplaceCarries(s[1..], p, key);
      CarryPastMiss(r, p, key);
    } else {
      assert !StartsWith(r, p);
    }
  }

  /** A `p` already followed by the key up to a line break is rewritten into itself. */
  lemma KeyLineUnchanged(s: string, p: string, key: string, after: string)
    requires p != [] && '\n' !in key
    requires StartsWith(s, p) && s[|p|..] == key + after
    requires after == [] || after[0] == '\n'
    requires ReplaceLines(after, p, key) == after
    ensures ReplaceLines(s, p, key) == s
  {
    calc {
      ReplaceLines(s, p, key);
    ==  { ReplaceAtMatch(s, p, key); }
      p + (key + ReplaceLines(FromLineEnd(s[|p|..]), p, key));
    ==  { FromLineEndSkips(key, after); }
      p + (key + after);
    ==  { assert s == s[..|p|] + s[|p|..]; }
      s;
    }
  }

  /** A key line that carries the key splits into `p`, the key, and a rest that starts a line and carries the key. */
  lemma KeyLineSplit(s: string, p: string, key: string) returns (after: string)
    requires p != [] && StartsWith(s, p) && LinesCarry(s, p, key)
    ensures s[|p|..] == key + after && |after| < |s|
    ensures (after == [] || after[0] == '\n') && LinesCarry(after, p, key)
  {
    CarryAtMatch(s, p, key);
    var rest := s[|p|..];
    after := rest[|key|..];
    assert rest == key + after;
    assert s == p + rest;
  }

  /** Text whose occurrences already carry the key is left as it is by the substitution. */
  lemma {:induction false} CarriedUnchanged(s: string, p: string, key: string)
    requires p != [] && '\n' !in key
    requires LinesCarry(s, p, key)
    ensures ReplaceLines(s, p, key) == s
    decreases |s|
  {
    if StartsWith(s, p) {
      var after := KeyLineSplit(s, p, key);
      CarriedUnchanged(after, p, key);
      KeyLineUnchanged(s, p, key, after);
    } else if s != [] {
      CarryPastMiss(s, p, key);
      CarriedUnchanged(s[1..], p, key);
      ReplacePastMiss(s, p, key);
      assert s == [s[0]] + s[1..];
    }
  }

  lemma {:induction false} UnmatchedThenCarried(c: string, t: string, p: string, key: string)
    requires OneLinePrefix(p)
    requires !Contains(c, p)
    requires t == [] || t[0] == '\n'
    requires LinesCarry(t, p, key)
    ensures LinesCarry(c + t, p, key)
  {
    if c == [] {
      assert c + t == t;
    } else {
      var ct := c + t;
      MissBeforeLineStart(c, t, p);
      assert ct[1..] == c[1..] + t;
      UnmatchedThenCarried(c[1..], t, p, key);
    }
  }

  /** Whichever branch `generar_api_key` takes, every key line of the new text carries the new key. */
  lemma InstallKeyCarries(content: string, key: string)
    ensures LinesCarry(InstallKey(content, key), KeyPrefix, key)
  {
    assert OneLinePrefix(KeyPrefix);
    if Contains(content, KeyPrefix) {
      ReplaceCarries(content, KeyPrefix, key);
    } else {
      var line := "\n" + KeyPrefix + key;
      assert line[1..] == KeyPrefix + key;
      assert (KeyPrefix + key)[..|KeyPrefix|] == KeyPrefix;
      assert (KeyPrefix + key)[|KeyPrefix|..] == key;
      assert key[|key|..] == [];
      assert LinesCarry(line[1..], KeyPrefix, key);
      assert content + "\n" + KeyPrefix + key == content + line;
      UnmatchedThenCarried(content, line, KeyPrefix, key);
    }
  }

  /**
   * Installing the same key twice writes the same file as installing it once: the
   * second run finds the key lines the first one wrote and rewrites them unchanged.
   */
  lemma InstallKeyIdempotent(content: string, key: string)
    requires '\n' !in key
    ensures InstallKey(InstallKey(content, key), key) == InstallKey(content, key)
  {
    var once := InstallKey(content, key);
    InstallKeyInstalls(content, key);
    ContainsPrefixOf(once, KeyPrefix, key);
    InstallKeyCarries(content, key);
    CarriedUnchanged(once, KeyPrefix, key);
  }

  /**
   * The substitution touches nothing but the values of the key lines: blanking
   * those values in its output gives what blanking them in its input gives, so
   * every other character of the text, and every other line, stays where it was.
   */
  lemma {:induction false} ReplaceKeepsRest(s: string, p: string, key: string)
    requires OneLinePrefix(p) && '\n' !in key
    ensures ReplaceLines(ReplaceLines(s, p, key), p, []) == ReplaceLines(s, p, [])
    decreases |s|
  {
    var r := ReplaceLines(s, p, key);
    if StartsWith(s, p) {
      var t := FromLineEnd(s[|p|..]);
      var x := ReplaceLines(t, p, key);
      ReplaceAtMatch(s, p, key);
      assert r[..|p|] == p && r[|p|..] == key + x;
      ReplaceAtMatch(r, p, []);
      StaysAtLineStart(t, p, key);
      FromLineEndSkips(key, x);
      ReplaceKeepsRest(t, p, key);
      ReplaceAtMatch(s, p, []);
    } else if s != [] {
      KeepsHead(s, p, key);
      ReplacePastMiss(s, p, key);
      assert r[0] == s[0] && r[1..] == ReplaceLines(s[1..], p, key);
      ReplacePastMiss(r, p, []);
      ReplaceKeepsRest(s[1..], p, key);
      ReplacePastMiss(s, p, []);
    }
  }

  /** A text that does not start with `p` still does not once a new line is put after it. */
  lemma MissBeforeLineStart(c: string, t: string, p: string)
    requires OneLinePrefix(p) && !StartsWith(c, p)
    requires t == [] || t[0] == '\n'
    ensures !StartsWith(c + t, p)
  {
    var ct := c + t;
    if |c| >= |p| {
      assert ct[..|p|] == c[..|p|];
    } else if |p| <= |ct| {
      assert ct[|c|] == '\n' && p[|c|] in p;
      assert ct[..|p|][|c|] != p[|c|];
    }
  }

  /** Text without `p` ahead of a new line is copied through unchanged. */
  lemma {:induction false} UnmatchedPrefixKept(c: string, t: string, p: string, key: string)
    requires OneLinePrefix(p) && !Contains(c, p)
    requires t == [] || t[0] == '\n'
    ensures ReplaceLines(c + t, p, key) == c + ReplaceLines(t, p, key)
  {
    if c == [] {
      assert c + t == t;
    } else {
      calc {
        ReplaceLines(c + t, p, key);
      ==  { MissBeforeLineStart(c, t, p); ReplacePastMiss(c + t, p, key); }
        [(c + t)[0]] + ReplaceLines((c + t)[1..], p, key);
      ==  { assert (c + t)[1..] == c[1..] + t; }
        [c[0]] + ReplaceLines(c[1..] + t, p, key);
      ==  { UnmatchedPrefixKept(c[1..], t, p, key); }
        [c[0]] + (c[1..] + ReplaceLines(t, p, key));
      ==  { assert c == [c[0]] + c[1..]; }
        c + ReplaceLines(t, p, key);
      }
    }
  }

  /** A one-line `p` + key with its value blanked is `p` alone. */
  lemma KeyValueBlanked(p: string, key: string)
    requires OneLinePrefix(p) && '\n' !in key
    ensures ReplaceLines(p + key, p, []) == p
  {
    assert (p + key)[..|p|] == p;
    calc {
      ReplaceLines(p + key, p, []);
    ==  { ReplaceAtMatch(p + key, p, []); }
      p + ([] + ReplaceLines(FromLineEnd((p + key)[|p|..]), p, []));
    ==  { assert (p + key)[|p|..] == key + []; FromLineEndSkips(key, []); }
      p + ([] + ReplaceLines([], p, []));
    ==  { assert !StartsWith([], p); }
      p;
    }
  }

  /** The appended key line, with its value blanked, is the bare prefix on a new line. */
  lemma KeyLineBlanked(p: string, key: string)
    requires OneLinePrefix(p) && '\n' !in key
    ensures ReplaceLines("\n" + (p + key), p, []) == "\n" + p
  {
    var line := "\n" + (p + key);
    assert p[0] in p;
    assert !StartsWith(line, p);
    calc {
      ReplaceLines(line, p, []);
    ==  { ReplacePastMiss(line, p, []); }
      [line[0]] + ReplaceLines(line[1..], p, []);
    ==  { assert line[1..] == p + key; }
      "\n" + ReplaceLines(p + key, p, []);
    ==  { KeyValueBlanked(p, key); }
      "\n" + p;
    }
  }

  /** A key line appended to text without `p`, with its value blanked, leaves the text and the bare prefix. */
  lemma AppendedLineBlanked(c: string, p: string, key: string)
    requires OneLinePrefix(p) && '\n' !in key && !Contains(c, p)
    ensures ReplaceLines(c + ("\n" + (p + key)), p, []) == c + ("\n" + p)
  {
    var line := "\n" + (p + key);
    calc {
      ReplaceLines(c + line, p, []);
    ==  { UnmatchedPrefixKept(c, line, p, []); }
      c + ReplaceLines(line, p, []);
    ==  { KeyLineBlanked(p, key); }
      c + ("\n" + p);
    }
  }

  /**
   * `generar_api_key` leaves the rest of the `.env` text (the `DB_*` settings and
   * any other line) as it was: with the key values blanked, the new text is the old
   * one, plus the appended key line when there was none.
   */
  lemma InstallKeyKeepsRest(content: string, key: string)
    requires '\n' !in key
    ensures ReplaceLines(InstallKey(content, key), KeyPrefix, [])
            == if Contains(content, KeyPrefix) then ReplaceLines(content, KeyPrefix, [])
               else content + "\n" + KeyPrefix
  {
    assert OneLinePrefix(KeyPrefix);
    if Contains(content, KeyPrefix) {
      ReplaceKeepsRest(content, KeyPrefix, key);
    } else {
      calc {
        ReplaceLines(InstallKey(content, key), KeyPrefix, []);
      ==  { assert InstallKey(content, key) == content + ("\n" + (KeyPrefix + key)); }
        ReplaceLines(content + ("\n" + (KeyPrefix + key)), KeyPrefix, []);
      ==  { AppendedLineBlanked(content, KeyPrefix, key); }
        content + ("\n" + KeyPrefix);
      ==
        content + "\n" + KeyPrefix;
      }
    }
  }

  /** A key drawn by `secrets.token_urlsafe` holds no line break. */
  lemma UrlSafeKeyIsOneLine(key: string)
    requires UrlSafe(key)
    ensures '\n' !in key
  {
  }

  // ---------------------------------------------------------------------------
  // The header check

  datatype KeyCheck = Granted(apiKey: Option<string>) | Forbidden

  /**
   * What `APIKeyHeader(name="x-api-key", auto_error=False)` hands to `get_api_key`:
   * the header's value, with a missing or empty header both turned into `None`.
   */
  function ReceivedKey(raw: Option<string>): (r: Option<string>)
    ensures r.Some? <==> raw.Some? && raw.value != ""
    ensures r.Some? ==> r == raw
  {
    if raw.Some? && raw.value != "" then raw else None
  }

  /**
   * `get_api_key`: the received header value (see `ReceivedKey`; never `Some("")`)
   * against the configured key `os.getenv("API_KEY")` (unset: `None`); equal values
   * pass, anything else is a 403.
   */
  function GetApiKey(header: Option<string>, configured: Option<string>): (r: KeyCheck)
    ensures r.Granted? <==> header == configured
    ensures r.Granted? ==> r.apiKey == header
  {
    if header == configured then Granted(header) else Forbidden
  }

  /** With no key configured, a request without the header passes (`None == None`). */
  lemma MissingHeaderPassesWithoutConfiguredKey(k: string)
    ensures GetApiKey(None, None) == Granted(None)
    ensures GetApiKey(Some(k), None) == Forbidden
  {
  }

  /**
   * Through the header extractor: with no key configured, a request passes exactly
   * when its header is missing or empty; with an empty key configured, no request
   * passes; with a key configured, exactly the requests whose header carries it.
   */
  lemma HeaderCheckEndToEnd(raw: Option<string>, configured: Option<string>)
    ensures configured == None ==>
              (GetApiKey(ReceivedKey(raw), configured).Granted? <==> raw == None || raw == Some(""))
    ensures configured == Some("") ==> GetApiKey(ReceivedKey(raw), configured) == Forbidden
    ensures configured.Some? && configured != Some("") ==>
              (GetApiKey(ReceivedKey(raw), configured).Granted? <==> raw == configured)
  {
  }

  // ---------------------------------------------------------------------------
  // The login state machine

  /** What `validar_usuario` returns: `True`, the new key, or `None`. */
  datatype LoginResult = StillAuthenticated | Issued(key: string) | Denied

  predicate CredentialsMatch(usuario: string, password: string) {
    usuario in ValidUsers && ValidUsers[usuario] == password
  }

  /** The two module globals `usuario_autenticado` and `tiempo_expiracion`. */
  class Session {
    var user: Option<string>
    var expiry: Option<int>

    /** Both are set together, by a login of a user from the table. */
    ghost predicate Valid()
      reads this
    {
      (user.Some? <==> expiry.Some?) && (user.Some? ==> user.value in ValidUsers)
    }

    constructor ()
      ensures Valid() && user == None && expiry == None
    {
      user, expiry := None, None;
    }

    /** `usuario_autenticado and time.time() < tiempo_expiracion` (an empty name is falsy). */
    predicate Active(now: int)
      reads this
    {
      user.Some? && user.value != "" && expiry.Some? && now < expiry.value
    }

    /**
     * `validar_usuario` at time `now`, with `key` the value `secrets.token_urlsafe`
     * would draw (so URL-safe, without the backslashes `re.sub` would read as escapes
     * in its replacement) and `envContent` the current `.env` text; `envWritten` is
     * what `generar_api_key` writes back, if it runs. The written text already holds
     * the key: installing it again would change nothing.
     */
    method ValidateUser(usuario: string, password: string, now: int, key: string, envContent: string)
      returns (r: LoginResult, envWritten: Option<string>)
      requires Valid() && UrlSafe(key)
      modifies this
      ensures Valid()
      ensures old(Active(now)) ==>
                r == StillAuthenticated && envWritten == None && user == old(user) && expiry == old(expiry)
      ensures !old(Active(now)) && CredentialsMatch(usuario, password) ==>
                && r == Issued(key)
                && envWritten == Some(InstallKey(envContent, key))
                && user == Some(usuario) && expiry == Some(now + TokenLifetime)
      ensures !old(Active(now)) && !CredentialsMatch(usuario, password) ==>
                r == Denied && envWritten == None && user == old(user) && expiry == old(expiry)
      ensures r.Issued? ==> forall t :: Active(t) <==> t < now + TokenLifetime
      ensures r.Issued? ==> envWritten.Some? && InstallKey(envWritten.value, key) == envWritten.value
    {
      if user.Some? && user.value != "" && expiry.Some? && now < expiry.value {
        return StillAuthenticated, None;
      }
      if usuario in ValidUsers && ValidUsers[usuario] == password {
        var newEnv := InstallKey(envContent, key);
        UrlSafeKeyIsOneLine(key);
        InstallKeyIdempotent(envContent, key);
        user := Some(usuario);
        expiry := Some(now + TokenLifetime);
        return Issued(key), Some(newEnv);
      }
      return Denied, None;
    }
  }
}
