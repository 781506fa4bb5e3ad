# Channels client of open-discussions-client, modelled in Dafny

This project models the channels client of the open-discussions API binding
(`ChannelsApi` in `open_discussions_api/channels/client.py`). Only the
behaviour that goes beyond "serialise and call" is modelled:

- the checks `create` runs on its keyword arguments, and the order in which
  it runs them;
- the request each operation hands to the HTTP session: verb, path relative
  to the base URL, and optional JSON object body;
- the percent-encoding of the channel name and the username in the
  contributor paths.

Each operation is a pure function. Its result is either the error the client
would raise, or the request it would send.

Files:

- `wrappers.dfy`: `Option` and `Result`.
- `percent_encoding.dfy` (module `PercentEncoding`): `Quote` is Python's
  `urllib.parse.quote(s)` with its default `safe='/'`, working on bytes,
  as Python 3.7 and later define it (from 3.7 on, '~' is unreserved and
  passes through; earlier versions send it as "%7E").
  Bytes in the unreserved set of section 2.3 of RFC 3986, and '/', pass
  through unchanged. Every other byte becomes "%XX" (section 2.1 of RFC 3986)
  with upper-case hex digits. `Decode` is a left inverse
  (`Decode(Quote(s)) == Some(s)`). It also accepts lower-case hex digits and
  escaped safe bytes, so `Quote` of what it returns need not give back its
  input. `Encoded` describes what the output looks like.
- `channels_client.dfy` (module `ChannelsClient`): the error outcomes of
  `create`, the request descriptor, and `Create`, `AddContributor` and
  `RemoveContributor`. It also has parsers that read the names back out of
  the contributor paths.

How the model is parameterised:

- `CHANNEL_ATTRIBUTES` and `VALID_CHANNEL_TYPES` are defined in
  `open_discussions_api/channels/constants.py`, which is not part of this
  model. They are the set parameters `attrs` and `types`.
- The keyword arguments of `create` are a sequence of (key, value) pairs
  with distinct keys, in the mapping's iteration order. That order is what
  "first unsupported key" refers to.
- Channel names and usernames are the UTF-8 bytes of the text.

Two behaviours of the code are worth stating outright:

- **Missing `channel_type`.** When every key is supported but `channel_type`
  is absent, the subscript `channel_params['channel_type']` at
  client.py:35 raises `KeyError`, not `InvalidChannelTypeError`. The model
  gives this case its own outcome, `MissingKey("channel_type")`.
- **'/' in a name.** `quote` keeps its default `safe='/'`, so '/' is not
  escaped. Channel `team/x` and user `bob` give the path
  `/channels/team/x/contributors/bob/` (`RemoveContributorKeepsSlash`).
  A remove-contributor path then need not identify its two names:
  `RemovePathAmbiguous` gives two different (channel, user) pairs with the
  same path. When the channel name holds no '/', the path does identify
  both names (`RemoveContributor`).

## Model

| member | source | states |
|---|---|---|
| `ChannelsClient.Create` | open_discussions_api/channels/client.py:26-43 | Characterises every outcome. An empty mapping gives `EmptyAttributes`, and only then. An unsupported key gives `UnsupportedAttribute`, exactly when the mapping is non-empty and some key is outside `attrs`, and it names the first such key in iteration order. So it takes precedence over any channel-type problem. With every key supported, a missing `channel_type` gives the lookup failure `MissingKey("channel_type")`, not one of the three client errors. A present value outside `types` gives `InvalidChannelType` naming that value. Success happens exactly when all checks pass, and then the result is one POST to "/channels/" whose body is the input mapping unchanged. |
| `ChannelsClient.FirstUnsupported` | open_discussions_api/channels/client.py:31-33 | The key loop: it finds nothing exactly when every key is in `attrs`. Otherwise it returns a position whose key is outside `attrs`, and every key before that position is inside `attrs`. |
| `ChannelsClient.Lookup` | open_discussions_api/channels/client.py:35 | The subscript `channel_params[key]`: it fails exactly when the key is absent. Otherwise it yields the value paired with that key. |
| `ChannelsClient.Message` | open_discussions_api/channels/client.py:28-38 | The raised message is empty for the empty-mapping error. The other messages contain the offending key or the offending value. |
| `ChannelsClient.CreateIgnoresOrder` | open_discussions_api/channels/client.py:28-38 | Two orderings of the same mapping give the same outcome, except for which unsupported key is reported. Success agrees, and so does being an unsupported-attribute error. Every other error is identical. |
| `ChannelsClient.AddContributor` | open_discussions_api/channels/client.py:45-53 | A POST whose body is `{"contributor_name": username}`, with the username as given. The path contains only unreserved characters, '/' and "%XX" triples. `ParseAddPath` recovers the channel name from the path. |
| `ChannelsClient.AddContributorEscapesSpace` | open_discussions_api/channels/client.py:49-50 | A space between unreserved characters of a channel name is sent as "%20". The characters around it are sent as they are. |
| `ChannelsClient.RemoveContributor` | open_discussions_api/channels/client.py:55-65 | A DELETE with no body. The path contains only unreserved characters, '/' and "%XX" triples. When the channel name holds no '/', `ParseRemovePath` recovers both names from the path. |
| `ChannelsClient.RemovePathAmbiguous` | open_discussions_api/channels/client.py:61-63 | Because '/' is left as it is, some distinct (channel, user) pairs share a path. Channel a+"/contributors/"+b with user u has the same path as channel a with user b+"/contributors/"+u. |
| `ChannelsClient.RemoveContributorKeepsSlash` | open_discussions_api/channels/client.py:60-65 | Channel "team/x" and user "bob" give a DELETE to "/channels/team/x/contributors/bob/". The '/' is not sent as "%2F". |
| `PercentEncoding.Quote` | open_discussions_api/channels/client.py:50 | Each input byte becomes one to three output characters, so the output is between one and three times as long as the input. |
| `PercentEncoding.QuoteIdentity` | open_discussions_api/channels/client.py:50 | The output is exactly as long as the input if and only if every byte is unreserved or '/'. In that case the output is the input itself. |
| `PercentEncoding.DecodeQuote` | open_discussions_api/channels/client.py:62-63 | Round trip: decoding an encoded segment gives back the original bytes. |
| `PercentEncoding.QuoteInjective` | open_discussions_api/channels/client.py:62-63 | Different names never encode to the same segment. |
| `PercentEncoding.QuoteEncoded` | open_discussions_api/channels/client.py:62-63 | Every encoded segment consists only of unreserved characters, '/', and '%' followed by two upper-case hex digits. |
| `PercentEncoding.QuoteKeepsSlash` | open_discussions_api/channels/client.py:50 | A '/' appears in the encoded segment exactly when the byte '/' appears in the input. |
| `PercentEncoding.QuoteAppend` | open_discussions_api/channels/client.py:50 | Encoding works byte by byte: encoding a concatenation gives the concatenation of the encodings. |

## Left out

- The HTTP session (`self.session.post`, `self.session.delete`) is not modelled: no transport, authentication or response objects. The model stops at the request descriptor the session would receive. The response is returned unchanged by the client and has no counterpart here.
- `BaseApi.get_url` is not part of this model; `open_discussions_api/base.py` is not part of this model either. Paths stay relative, and URL joining is not modelled.
- The contents of `CHANNEL_ATTRIBUTES` and `VALID_CHANNEL_TYPES` are not modelled; `open_discussions_api/channels/constants.py` is not part of this model. They are set parameters.
- The conversion of a Python text string to UTF-8 inside `quote` is not modelled. Names are given as their bytes.
- Python exception subclassing (every client error is an `AttributeError`) is not modelled. The errors are variants of a datatype instead.
- Python's `str` of a channel-type value, used in its error message, is the parameter `show` of `Message`.
- A `TypeError` from testing an unhashable `channel_type` value against `VALID_CHANNEL_TYPES` is not modelled, because the type of that constant is not known. JSON serialisation of the body is not modelled either.
