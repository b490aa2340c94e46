# URL parameters and request headers of the generated API client

This project models `gensupport/params.go` of the vendored generative-ai-go
client support library. The file holds two small builders used for every
outgoing API call:

- `URLParams`, a map from query-parameter name to an ordered list of values,
  with `Get`, `Set`, `SetMulti` and `Encode` (the key-sorted
  `k=v&k=v` query string), and `SetOptions`, which folds a call's options
  into it;
- `SetHeaders`, which builds the header map of a request by layered
  overwrites: the client-identification header, the `keyvals` pairs,
  `User-Agent`, a non-empty `Content-Type`, and finally the caller's own
  headers.

Go mutates the maps in place. The model uses immutable Dafny maps
(`map<string, seq<string>>`), and every update returns the new map.

Modules, one per concern:

- `Wrappers` (`wrappers.dfy`): `Option`, `Result`, and `Lookup` on maps.
- `StringOrder` (`string_order.dfy`): lexicographic order on strings, plus
  insertion into a sorted key list. Sorted key lists are unique
  (`SortedUnique`).
- `URLParams` (`url_params.dfy`): the parameter map and its accessors.
- `QueryEncoding` (`query_encoding.dfy`): `Encode`. Its specification is
  `IsEncoding`, and a reference decoder (`ParseQuery` and `Collect`, in the
  manner of Go's `url.ParseQuery`) is its inverse.
- `CallOptions` (`call_options.dfy`): the option datatype and `SetOptions`.
- `Headers` (`headers.dfy`): `SetHeaders`.

Three things the Go code takes from elsewhere are parameters here:

- query escaping (`url.QueryEscape`) is the parameter `escape`;
- header-name canonicalisation (`textproto.CanonicalMIMEHeaderKey`, used by
  `http.Header.Set`) is the parameter `canon`;
- the client-identification value, built from `GoVersion()`, is the
  parameter `clientId`.

The properties hold for every choice of these parameters, with two
exceptions. The round trip needs an escaping whose output contains no `&` and
no `=`, and an `unescape` that undoes it. The two worked encoding examples
need an escaping that leaves their plain letters and digits unchanged, as
percent-escaping does.

Three points of the code's behaviour that are easy to misread:

- A `Content-Type` entry can also come from a `keyvals` pair, not only from
  the argument or a caller header. `SetHeaders` therefore promises that the
  entry is absent only when no layer names it.
- Caller headers are copied under their own names, without canonicalisation.
  A caller header `user-agent` therefore sits beside the canonical
  `User-Agent` and does not replace it. "Caller headers take precedence"
  holds name by name.
- An odd-length `keyvals` makes Go panic at `keyvals[i+1]`, after some pairs
  have already been set. The partial map is never returned, so the model
  returns `Failure(OddKeyvals(n))` and produces no map.

## Model

| member | source | states |
|---|---|---|
| URLParams.Get | vendor/github.com/google/generative-ai-go/genai/internal/gensupport/params.go:28-35 | the result is "" when the key is absent or holds no values, and the first stored value otherwise |
| URLParams.Set | vendor/github.com/google/generative-ai-go/genai/internal/gensupport/params.go:37-41 | the key's entry becomes exactly `[value]`; every other key keeps its entry; the key set grows by at most that key |
| URLParams.SetMulti | vendor/github.com/google/generative-ai-go/genai/internal/gensupport/params.go:43-49 | the key's entry becomes exactly `values`, in the given order; every other key keeps its entry |
| URLParams.GetAfterSet | vendor/github.com/google/generative-ai-go/genai/internal/gensupport/params.go:28-41 | after `Set(k, v)`, `Get(k)` is `v`, and `Get` of every other key is unchanged |
| URLParams.SetIdempotent | vendor/github.com/google/generative-ai-go/genai/internal/gensupport/params.go:39-41 | setting the same value twice gives the same map as setting it once |
| URLParams.GetAfterSetMulti | vendor/github.com/google/generative-ai-go/genai/internal/gensupport/params.go:28-49 | after `SetMulti(k, vs)`, `Get(k)` is `vs[0]` for non-empty `vs` and "" for empty `vs`; other keys are unchanged |
| URLParams.SetIsSingletonSetMulti | vendor/github.com/google/generative-ai-go/genai/internal/gensupport/params.go:37-49 | `Set(k, v)` is the same as `SetMulti(k, [v])` |
| QueryEncoding.SortedKeys | vendor/github.com/google/generative-ai-go/genai/internal/gensupport/params.go:51-52 | the result lists every key of the map exactly once, in strictly ascending order |
| QueryEncoding.Encode | vendor/github.com/google/generative-ai-go/genai/internal/gensupport/params.go:51-55 | the result is the `&`-joined `escape(k)=escape(v)` items of the map's pairs, with keys ascending; it is "" exactly when no key holds a value |
| QueryEncoding.PairsValues | vendor/github.com/google/generative-ai-go/genai/internal/gensupport/params.go:51-55 | in the encoded pair list, the values of each key are exactly its stored values, in stored order; an unlisted key contributes none |
| QueryEncoding.PairsOrdered | vendor/github.com/google/generative-ai-go/genai/internal/gensupport/params.go:51-52 | the encoded pairs come grouped by key, with keys in non-decreasing order and every key drawn from the map |
| QueryEncoding.EncodingDeterministic | vendor/github.com/google/generative-ai-go/genai/internal/gensupport/params.go:51-52 | any two encodings of the same map are equal: the output does not depend on map iteration order |
| QueryEncoding.EncodeRoundTrip | vendor/github.com/google/generative-ai-go/genai/internal/gensupport/params.go:51-55 | decoding an encoding rebuilds the map except for keys with no values, so `Get` answers the same for every key |
| QueryEncoding.ParseRender | vendor/github.com/google/generative-ai-go/genai/internal/gensupport/params.go:51-55 | with separator-free escaping, parsing the rendered pair list gives back the same list |
| QueryEncoding.EncodeSortsKeys | vendor/github.com/google/generative-ai-go/genai/internal/gensupport/params.go:51-52 | with `b=2` set before `a=1`, the encoding is `a=1&b=2` under any escaping that leaves these letters and digits unchanged |
| QueryEncoding.EncodeKeepsValueOrder | vendor/github.com/google/generative-ai-go/genai/internal/gensupport/params.go:43-55 | after `SetMulti("x", ["3","1","2"])` the encoding is `x=3&x=1&x=2` under any escaping that leaves these letters and digits unchanged, so the values are not re-sorted |
| CallOptions.LastForIsLast | vendor/github.com/google/generative-ai-go/genai/internal/gensupport/params.go:59-67 | the option the reference search finds occurs in the list and no later option names the same key |
| CallOptions.ApplyOption | vendor/github.com/google/generative-ai-go/genai/internal/gensupport/params.go:60-66 | a multi-valued option stores its whole list under its name and a single-valued one stores `[value]`; other keys are untouched |
| CallOptions.SetOptions | vendor/github.com/google/generative-ai-go/genai/internal/gensupport/params.go:57-68 | every key ends with the values of the last option naming it; keys named by no option keep their entry; the key set grows by exactly the named keys |
| Headers.SetHeader | vendor/github.com/google/generative-ai-go/genai/internal/gensupport/params.go:75-81 | the canonical form of the name maps to exactly `[value]`; every other name is untouched |
| Headers.LastPairWins | vendor/github.com/google/generative-ai-go/genai/internal/gensupport/params.go:76-78 | when the pair at position `p` is the last with its canonical name, its value is the one the pair layer leaves |
| Headers.LastPairAbsent | vendor/github.com/google/generative-ai-go/genai/internal/gensupport/params.go:76-78 | the pair layer leaves nothing for a name exactly when no pair has that canonical name |
| Headers.SetHeaders | vendor/github.com/google/generative-ai-go/genai/internal/gensupport/params.go:70-87 | fails exactly when `keyvals` has odd length; otherwise every name holds the value of its topmost layer (caller header, then Content-Type, User-Agent, last `keyvals` pair, client id); caller headers replace whole lists; User-Agent beats `keyvals`; Content-Type is set when non-empty and is absent when no layer names it |

## Left out

- Query escaping, which is `url.QueryEscape` in the Go standard library, is
  not modelled. `Encode` takes it as the parameter `escape`, and only the
  sort-and-join structure of `url.Values.Encode` is modelled.
- QueryEncoding.Encode: it is specified for an arbitrary `escape` and does
  not promise percent-encoding of reserved characters.
- Header-name canonicalisation (`textproto.CanonicalMIMEHeaderKey`) is the
  parameter `canon`. `SetHeader` applies it; the caller-header overlay does
  not. Case-insensitive lookup by later readers of the map is not modelled.
- Headers.SetHeaders: the literal client-identification value
  (`gl-go/<GoVersion()> gdcl/0.179.0`) is the parameter `clientId`.
  `GoVersion()` is not part of this model.
- The `googleapi.CallOption` and `MultiCallOption` interfaces and the type
  assertion are not modelled. The `CallOption` datatype, `Single | Multi`,
  stands in for them.
- Slice aliasing is not modelled, because Dafny sequences are immutable
  values. This covers the caveat of `SetMulti` (lines 45-46) and the value
  slices that `SetHeaders` shares with the caller's headers (line 84).
- Go's randomised iteration order over `userHeaders` is not modelled. The
  overlay is the map union `h + userHeaders`; its keys are distinct, so the
  order cannot matter.
- Go compares strings byte by byte; the model compares characters by code
  point. The two orders agree on valid UTF-8. Strings that are not valid
  UTF-8 are not modelled.
- `ParseQuery` is a reference inverse, not Go's `url.ParseQuery`. It does not
  reject `;` and does not model unescaping errors.
