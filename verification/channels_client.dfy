/**
 * The channels client: `ChannelsApi.create`, `add_contributor` and
 * `remove_contributor`. Each operation is a function from its arguments to
 * the request it would hand to the HTTP session (method, path relative to the
 * base URL, optional JSON object body), or, for `create`, to the error it would
 * raise before any request is made.
 *
 * `CHANNEL_ATTRIBUTES` and `VALID_CHANNEL_TYPES` are configuration and come in
 * as the set parameters `attrs` and `types`. The keyword arguments of `create`
 * are a sequence of (key, value) pairs with distinct keys, in the mapping's
 * iteration order; `V` is the type of the argument values. Channel names and
 * usernames are the UTF-8 bytes of the text.
 */
module ChannelsClient {
  import opened Wrappers
  import opened PercentEncoding

  const ChannelTypeKey: string := "channel_type"
  const ContributorNameKey: string := "contributor_name"
  const ChannelsPath: string := "/channels/"
  const ContributorsPath: string := "/contributors/"

  datatype HttpMethod = Post | Delete

  /** A JSON object, as the ordered list of its members. */
  type JsonObject<V> = seq<(string, V)>

  /** What an operation hands to the session: method, relative path, optional JSON body. */
  datatype Request<V> = Request(verb: HttpMethod, path: string, body: Option<JsonObject<V>>)

  /**
   * The ways `create` fails before any request: the three error classes of the
   * client, and the `KeyError` of the lookup of `channel_type` when that key is absent.
   */
  datatype CreateError<V> =
    | EmptyAttributes
    | UnsupportedAttribute(key: string)
    | InvalidChannelType(channelType: V)
    | MissingKey(key: string)

  /** The keyword arguments form a mapping: no key twice. */
  predicate DistinctKeys<V>(ps: JsonObject<V>) {
    forall i, j :: 0 <= i < j < |ps| ==> ps[i].0 != ps[j].0
  }

  predicate HasKey<V>(ps: JsonObject<V>, k: string) {
    exists i :: 0 <= i < |ps| && ps[i].0 == k
  }

  predicate AllSupported<V>(attrs: set<string>, ps: JsonObject<V>) {
    forall i :: 0 <= i < |ps| ==> ps[i].0 in attrs
  }

  /** `k` is the first key, in iteration order, outside `attrs`. */
  predicate IsFirstUnsupported<V>(attrs: set<string>, ps: JsonObject<V>, k: string) {
    exists i :: 0 <= i < |ps| && ps[i].0 == k && k !in attrs && AllSupported(attrs, ps[..i])
  }

  /** The loop over the keys of `create`: the position of the first key outside `attrs`. */
  function FirstUnsupported<V>(attrs: set<string>, ps: JsonObject<V>): (r: Option<nat>)
    ensures r.None? <==> AllSupported(attrs, ps)
    ensures r.Some? ==> r.value < |ps| && ps[r.value].0 !in attrs && AllSupported(attrs, ps[..r.value])
  {
    if ps == [] then None
    else if ps[0].0 !in attrs then Some(0)
    else
      match FirstUnsupported(attrs, ps[1..])
      case None => None
      case Some(i) =>
        assert ps[..i + 1] == [ps[0]] + ps[1..][..i];
        Some(i + 1)
  }

  /** The subscript `ps[k]` of a mapping: None where Python raises `KeyError`. */
  function Lookup<V>(ps: JsonObject<V>, k: string): (r: Option<V>)
    requires DistinctKeys(ps)
    ensures r.None? <==> !HasKey(ps, k)
    ensures forall i :: 0 <= i < |ps| && ps[i].0 == k ==> r == Some(ps[i].1)
  {
    if ps == [] then None
    else if ps[0].0 == k then Some(ps[0].1)
    else
      var r := Lookup(ps[1..], k);
      assert forall i :: 1 <= i < |ps| ==> ps[i] == ps[1..][i - 1];
      r
  }

  /**
   * `ChannelsApi.create(**params)`: the empty check, then every key against
   * `attrs` in order, then the channel type against `types`; on success one
   * POST of the unchanged mapping to "/channels/".
   */
  function Create<V>(attrs: set<string>, types: set<V>, params: JsonObject<V>): (r: Result<Request<V>, CreateError<V>>)
    requires DistinctKeys(params)
    ensures r == Failure(EmptyAttributes) <==> params == []
    ensures r.Failure? && r.error.UnsupportedAttribute? <==> params != [] && !AllSupported(attrs, params)
    ensures r.Failure? && r.error.UnsupportedAttribute? ==> IsFirstUnsupported(attrs, params, r.error.key)
    ensures r == Failure(MissingKey(ChannelTypeKey)) <==>
      params != [] && AllSupported(attrs, params) && !HasKey(params, ChannelTypeKey)
    ensures r.Failure? && r.error.InvalidChannelType? <==>
      params != [] && AllSupported(attrs, params) &&
      exists i :: 0 <= i < |params| && params[i].0 == ChannelTypeKey && params[i].1 !in types
    ensures r.Failure? && r.error.InvalidChannelType? ==>
      exists i :: 0 <= i < |params| && params[i] == (ChannelTypeKey, r.error.channelType)
    ensures r.Success? <==>
      params != [] && AllSupported(attrs, params) &&
      exists i :: 0 <= i < |params| && params[i].0 == ChannelTypeKey && params[i].1 in types
    ensures r.Success? ==> r.value == Request(Post, ChannelsPath, Some(params))
  {
    if params == [] then Failure(EmptyAttributes)
    else
      match FirstUnsupported(attrs, params)
      case Some(i) => Failure(UnsupportedAttribute(params[i].0))
      case None =>
        match Lookup(params, ChannelTypeKey)
        case None => Failure(MissingKey(ChannelTypeKey))
        case Some(t) =>
          if t in types then Success(Request(Post, ChannelsPath, Some(params)))
          else Failure(InvalidChannelType(t))
  }

  /** `s` holds `t` as a contiguous piece. */
  predicate Contains(s: string, t: string) {
    exists i :: 0 <= i <= |s| && t <= s[i..]
  }

  /**
   * The text of the raised error, with `show` standing for Python's `str` of a
   * value; for the lookup failure it is the text of `KeyError(key)`.
   */
  function Message<V>(e: CreateError<V>, show: V -> string): (r: string)
    ensures e.EmptyAttributes? <==> r == []
    ensures e.UnsupportedAttribute? ==> Contains(r, e.key)
    ensures e.InvalidChannelType? ==> Contains(r, show(e.channelType))
    ensures e.MissingKey? ==> Contains(r, e.key)
  {
    match e
    case EmptyAttributes => ""
    case UnsupportedAttribute(k) =>
      var r := "Argument '" + k + "' is not a supported field";
      assert k <= r[10..];
      r
    case InvalidChannelType(t) =>
      var r := "Channel type '" + show(t) + "' is not a valid option";
      assert show(t) <= r[14..];
      r
    case MissingKey(k) =>
      var r := "'" + k + "'";
      assert k <= r[1..];
      r
  }

  /**
   * Whether `create` succeeds, and which error it raises when it is not the
   * unsupported-attribute one, depend on the mapping, not on its iteration
   * order; only the choice of the reported unsupported key does.
   */
  lemma CreateIgnoresOrder<V>(attrs: set<string>, types: set<V>, p: JsonObject<V>, q: JsonObject<V>)
    requires DistinctKeys(p) && DistinctKeys(q) && multiset(p) == multiset(q)
    ensures Create(attrs, types, p).Success? <==> Create(attrs, types, q).Success?
    ensures Create(attrs, types, p).Failure? && !Create(attrs, types, p).error.UnsupportedAttribute? ==>
      Create(attrs, types, q) == Create(attrs, types, p)
    ensures Create(attrs, types, p).Failure? && Create(attrs, types, p).error.UnsupportedAttribute? ==>
      Create(attrs, types, q).Failure? && Create(attrs, types, q).error.UnsupportedAttribute?
  {
    SameMembers(p, q);
    SameMembers(q, p);
  }

  /** Every member of `p` is a member of `q`, when the two hold the same pairs. */
  lemma SameMembers<V>(p: JsonObject<V>, q: JsonObject<V>)
    requires multiset(p) == multiset(q)
    ensures |p| == |q|
    ensures forall i :: 0 <= i < |p| ==> exists j :: 0 <= j < |q| && q[j] == p[i]
  {
    calc {
      |p|;
      |multiset(p)|;
      |multiset(q)|;
      |q|;
    }
    forall i | 0 <= i < |p|
      ensures exists j :: 0 <= j < |q| && q[j] == p[i]
    {
      assert p[i] in multiset(p);
      assert p[i] in q;
    }
  }

  /**
   * `add_contributor(channel_name, username)`: a POST to
   * "/channels/{quote(channel_name)}/contributors/" whose body names the
   * contributor, with the username as given.
   */
  function AddContributor(channelName: seq<Byte>, username: seq<Byte>): (r: Request<seq<Byte>>)
    ensures r.verb == Post && r.body == Some([(ContributorNameKey, username)])
    ensures Encoded(r.path)
    ensures ParseAddPath(r.path) == Some(channelName)
  {
    AddPathFacts(channelName);
    Request(Post, ChannelsPath + Quote(channelName) + ContributorsPath, Some([(ContributorNameKey, username)]))
  }

  /**
   * `remove_contributor(channel_name, username)`: a DELETE without body to
   * "/channels/{quote(channel_name)}/contributors/{quote(username)}/".
   * The path identifies both names as long as the channel name holds no '/';
   * RemovePathAmbiguous shows that otherwise it need not.
   */
  function RemoveContributor(channelName: seq<Byte>, username: seq<Byte>): (r: Request<seq<Byte>>)
    ensures r.verb == Delete && r.body == None
    ensures Encoded(r.path)
    ensures Slash !in channelName ==> ParseRemovePath(r.path) == Some((channelName, username))
  {
    RemovePathFacts(channelName, username);
    Request(Delete, ChannelsPath + Quote(channelName) + ContributorsPath + Quote(username) + "/", None)
  }

  /** Reads the channel name back out of an `add_contributor` path. */
  function ParseAddPath(p: string): Option<seq<Byte>> {
    if |p| >= |ChannelsPath| + |ContributorsPath| && p[..|ChannelsPath|] == ChannelsPath
      && p[|p| - |ContributorsPath|..] == ContributorsPath
    then Decode(p[|ChannelsPath|..|p| - |ContributorsPath|])
    else None
  }

  /** The position of the first `c` in `s`. */
  function IndexOf(s: string, c: char): (r: Option<nat>)
    ensures r.None? <==> c !in s
    ensures r.Some? ==> r.value < |s| && s[r.value] == c && c !in s[..r.value]
  {
    if s == [] then None
    else if s[0] == c then Some(0)
    else
      match IndexOf(s[1..], c)
      case None => None
      case Some(i) =>
        assert s[..i + 1] == [s[0]] + s[1..][..i];
        Some(i + 1)
  }

  /**
   * Reads channel name and username back out of a `remove_contributor` path,
   * taking the channel segment to end at the first '/'.
   */
  function ParseRemovePath(p: string): Option<(seq<Byte>, seq<Byte>)> {
    if |p| >= |ChannelsPath| && p[..|ChannelsPath|] == ChannelsPath then
      var rest := p[|ChannelsPath|..];
      match IndexOf(rest, '/')
      case None => None
      case Some(j) =>
        var tail := rest[j..];
        if |tail| > |ContributorsPath| && tail[..|ContributorsPath|] == ContributorsPath && tail[|tail| - 1] == '/' then
          match (Decode(rest[..j]), Decode(tail[|ContributorsPath|..|tail| - 1]))
          case (Some(c), Some(u)) => Some((c, u))
          case _ => None
        else None
    else None
  }

  lemma AddPathFacts(channelName: seq<Byte>)
    ensures var p := ChannelsPath + Quote(channelName) + ContributorsPath;
      Encoded(p) && ParseAddPath(p) == Some(channelName)
  {
    ChannelsPathEncoded();
    ContributorsPathEncoded();
    QuoteEncoded(channelName);
    EncodedAppend(ChannelsPath, Quote(channelName));
    EncodedAppend(ChannelsPath + Quote(channelName), ContributorsPath);
    ParseAddPathOf(channelName);
  }

  lemma RemovePathFacts(channelName: seq<Byte>, username: seq<Byte>)
    ensures var p := ChannelsPath + Quote(channelName) + ContributorsPath + Quote(username) + "/";
      Encoded(p) && (Slash !in channelName ==> ParseRemovePath(p) == Some((channelName, username)))
  {
    ChannelsPathEncoded();
    ContributorsPathEncoded();
    QuoteEncoded(channelName);
    QuoteEncoded(username);
    EncodedAppend(ChannelsPath, Quote(channelName));
    EncodedAppend(ChannelsPath + Quote(channelName), ContributorsPath);
    EncodedAppend(ChannelsPath + Quote(channelName) + ContributorsPath, Quote(username));
    EncodedAppend(ChannelsPath + Quote(channelName) + ContributorsPath + Quote(username), "/");
    ParseRemovePathOf(channelName, username);
  }

  /*
   * Facts about the string literals of the paths. Each literal gets a lemma of
   * its own: the solver unfolds `Encoded` and `Quote` on literal arguments, and
   * keeping those terms out of the proofs that use the facts keeps them cheap.
   */

  lemma ChannelsPathEncoded()
    ensures Encoded(ChannelsPath)
  {
    PathTextEncoded(ChannelsPath);
  }

  lemma ContributorsPathEncoded()
    ensures Encoded(ContributorsPath)
  {
    PathTextEncoded(ContributorsPath);
  }

  lemma SlashEncoded()
    ensures Encoded("/")
  {
    PathTextEncoded("/");
  }

  /** Text of lower-case letters and '/' has the shape of an encoding. */
  lemma PathTextEncoded(t: string)
    requires forall i :: 0 <= i < |t| ==> 'a' <= t[i] <= 'z' || t[i] == '/'
    ensures Encoded(t)
  {
    SafeTextEncoded(t);
  }

  /*
   * SplitAt, Middle and Regroup restate sequence facts for arbitrary
   * sequences, so that the lemmas below apply them to the path literals
   * without the solver reasoning about the literals' characters.
   */

  /** The two halves of a concatenation. */
  lemma SplitAt<T>(a: seq<T>, b: seq<T>)
    ensures (a + b)[..|a|] == a && (a + b)[|a|..] == b
  {
  }

  /** The three parts of a concatenation. */
  lemma Middle<T>(a: seq<T>, m: seq<T>, z: seq<T>)
    ensures var s := a + m + z;
      s[..|a|] == a && s[|a|..|s| - |z|] == m && s[|s| - |z|..] == z
  {
  }

  /** The first '/' of `a + t` is the first of `t` when `a` holds none. */
  lemma FirstSlashAt(a: string, t: string)
    requires '/' !in a && t != [] && t[0] == '/'
    ensures IndexOf(a + t, '/') == Some(|a|)
  {
    var s := a + t;
    assert forall k :: 0 <= k < |a| ==> s[k] == a[k];
    assert s[|a|] == '/';
    forall j | |a| < j <= |s|
      ensures '/' in s[..j]
    {
      assert s[..j][|a|] == '/';
    }
  }

  /** Moving the middle piece `b` from one group to the next. */
  lemma Regroup<T>(p: seq<T>, a: seq<T>, c: seq<T>, b: seq<T>, u: seq<T>, e: seq<T>)
    ensures p + (a + c + b) + c + u + e == p + a + c + (b + c + u) + e
  {
  }

  lemma ParseAddPathOf(channelName: seq<Byte>)
    ensures ParseAddPath(ChannelsPath + Quote(channelName) + ContributorsPath) == Some(channelName)
  {
    Middle(ChannelsPath, Quote(channelName), ContributorsPath);
    DecodeQuote(channelName);
  }

  lemma ParseRemovePathOf(channelName: seq<Byte>, username: seq<Byte>)
    ensures Slash !in channelName ==>
      ParseRemovePath(ChannelsPath + Quote(channelName) + ContributorsPath + Quote(username) + "/")
        == Some((channelName, username))
  {
    if Slash in channelName {
      return;
    }
    var qc, qu := Quote(channelName), Quote(username);
    var tail := ContributorsPath + qu + "/";
    var rest := qc + tail;
    assert ChannelsPath + qc + ContributorsPath + qu + "/" == ChannelsPath + rest;
    SplitAt(ChannelsPath, rest);
    QuoteKeepsSlash(channelName);
    FirstSlashAt(qc, tail);
    SplitAt(qc, tail);
    Middle(ContributorsPath, qu, "/");
    DecodeQuote(channelName);
    DecodeQuote(username);
  }

  /**
   * Because '/' is not escaped, a channel name and a username that share the
   * text "/contributors/" between them can be moved across it without
   * changing the path of `remove_contributor`.
   */
  lemma RemovePathAmbiguous(a: seq<Byte>, b: seq<Byte>, u: seq<Byte>)
    ensures
      var marker := AsciiBytes(ContributorsPath);
      RemoveContributor(a + marker + b, u).path == RemoveContributor(a, b + marker + u).path
  {
    var marker := AsciiBytes(ContributorsPath);
    QuoteWord(ContributorsPath);
    var qa, qb, qu := Quote(a), Quote(b), Quote(u);
    assert Quote(a + marker + b) == qa + ContributorsPath + qb by {
      QuoteAppend(a + marker, b);
      QuoteAppend(a, marker);
    }
    assert Quote(b + marker + u) == qb + ContributorsPath + qu by {
      QuoteAppend(b + marker, u);
      QuoteAppend(b, marker);
    }
    Regroup(ChannelsPath, qa, ContributorsPath, qb, qu, "/");
  }

  /** A space between unreserved characters of a channel name is sent as "%20", the rest as it is. */
  lemma AddContributorEscapesSpace(g: seq<Byte>, d: seq<Byte>, username: seq<Byte>)
    requires forall i :: 0 <= i < |g| ==> IsUnreserved(g[i])
    requires forall i :: 0 <= i < |d| ==> IsUnreserved(d[i])
    ensures AddContributor(g + [0x20] + d, username).path
      == ChannelsPath + AsChars(g) + "%20" + AsChars(d) + ContributorsPath
  {
    var name := g + [0x20] + d;
    assert Quote(name) == AsChars(g) + "%20" + AsChars(d) by {
      QuoteAroundEscape(g, 0x20, d);
      assert ['%', HexDigit(0x20 / 16), HexDigit(0x20 % 16)] == "%20";
    }
  }

  /** A byte that is neither unreserved nor '/' is sent as "%XX", the unreserved text around it as it is. */
  lemma QuoteAroundEscape(g: seq<Byte>, b: Byte, d: seq<Byte>)
    requires forall i :: 0 <= i < |g| ==> IsUnreserved(g[i])
    requires forall i :: 0 <= i < |d| ==> IsUnreserved(d[i])
    requires !IsSafe(b)
    ensures Quote(g + [b] + d) == AsChars(g) + ['%', HexDigit(b / 16), HexDigit(b % 16)] + AsChars(d)
  {
    assert Quote(g) == AsChars(g) by {
      QuoteIdentity(g);
    }
    assert Quote(d) == AsChars(d) by {
      QuoteIdentity(d);
    }
    assert Quote([b]) == ['%', HexDigit(b / 16), HexDigit(b % 16)] by {
      assert [b][1..] == [];
    }
    assert Quote(g + [b] + d) == Quote(g) + Quote([b]) + Quote(d) by {
      QuoteAppend(g + [b], d);
      QuoteAppend(g, [b]);
    }
  }

  /** Lower-case letters and '/' are their own encoding. */
  lemma QuoteWord(t: string)
    requires forall i :: 0 <= i < |t| ==> 'a' <= t[i] <= 'z' || t[i] == '/'
    ensures forall i :: 0 <= i < |t| ==> t[i] as int < 128
    ensures Quote(AsciiBytes(t)) == t
  {
    QuoteSafeText(t);
  }

  /** A '/' in a channel name is sent as it is, not as "%2F". */
  lemma RemoveContributorKeepsSlash()
    ensures RemoveContributor(AsciiBytes("team/x"), AsciiBytes("bob"))
      == Request(Delete, "/channels/team/x/contributors/bob/", None)
  {
    QuoteWord("team/x");
    QuoteWord("bob");
    assert "/channels/" + "team/x" == "/channels/team/x";
    assert "/channels/team/x" + "/contributors/" == "/channels/team/x/contributors/";
    assert "/channels/team/x/contributors/" + "bob" + "/" == "/channels/team/x/contributors/bob/";
  }
}
