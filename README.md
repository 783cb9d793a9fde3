# Pedigree browser: the ancestry route, modelled in Dafny

The application signs a user in against the FamilySearch API and shows a
two-generation pedigree. Its one piece of logic is the `/pedigree` route
(`routes/pedigree.js`). The route asks the gateway for
`/platform/tree/ancestry?generations=2&person=<personId>`. The gateway
answers with `(error, response)`. Then:

- a transport error is passed to `next`;
- otherwise, any status other than exactly 200 (204 included) is passed to
  `next` as a REST error built by `lib/rest-error.js`;
- otherwise, the returned `persons` are written one by one into a fresh
  dictionary, keyed by `display.ascendancyNumber`, and the view `pedigree`
  is rendered with `{ancestry}` as its only local.

Modules:

- `Wrappers` (`wrappers.dfy`): `Option`. It stands for a value that may be
  `undefined`.
- `Gateway` (`gateway.dfy`): the values the gateway hands to the callback:
  `Person`, `Response`, `TransportError` and `Reply`. The gateway itself is
  an input. `GetPedigree` takes it as a function from path to reply.
- `RestError` (`rest_error.dfy`): `lib/rest-error.js`. It is a pure function
  from a response to a fresh error record. Responses are values, so the
  function cannot change its input.
- `Pedigree` (`pedigree.dfy`): the route. It has the request path, the
  decision between forwarding and rendering (`Rejection`), and the ancestry
  index. The index is a method with a loop (`BuildAncestry`). It is proved
  equal to a fold specification (`AncestryOf`). A second specification states
  last-write-wins without a fold (`LastWriteWins`). Both are proved to define
  the same dictionary.

JavaScript behaviour the model keeps:

- A person without an `ascendancyNumber` is stored under the key
  `"undefined"`, because object keys are stringified.
- `new Error(undefined)` has the empty message, so an absent `statusText`
  gives `message == ""`.
- An absent `body` stays absent in the error.
- The person id goes into the path as is, with no URL encoding. An id such
  as `X&generations=9` therefore adds a second `generations` parameter; what
  is proved is only that the first query parameter is `generations=2`.
- The code neither parses nor validates ascendancy numbers. Whatever value
  is present becomes the key, so keys are strings.

## Model

| member | source | states |
|---|---|---|
| `RestError.ToRestError` | lib/rest-error.js:4-9 | total; `status` is the response's `statusCode`; `message` is its `statusText` (empty when absent); `body` is its `body` as is, absent when absent |
| `RestError.ToRestErrorDeterminedBy` | lib/rest-error.js:4-9 | two responses give equal errors if and only if they agree on status code, status text (absent read as empty) and body; `data` and everything else is ignored |
| `Pedigree.AncestryPath` | routes/pedigree.js:7 | the path is the fixed ancestry query prefix followed by the person id, unchanged |
| `Pedigree.PersonIdOf` | routes/pedigree.js:7 | whatever id it reads from a path rebuilds exactly that path |
| `Pedigree.PersonIdRoundTrip` | routes/pedigree.js:7 | the id is recovered from the path it builds, so distinct ids give distinct requests |
| `Pedigree.AncestryPathAsksTwoGenerations` | routes/pedigree.js:7 | for every id, the path is the ancestry endpoint whose first query parameter is `generations=2` |
| `Pedigree.PropertyKey` | routes/pedigree.js:14 | the property key of a person is its ascendancy number as given, and `"undefined"` when the number is absent |
| `Pedigree.AncestryKeys` | routes/pedigree.js:12-15 | the dictionary's key set is exactly the set of the persons' keys |
| `Pedigree.AncestryLastValues` | routes/pedigree.js:13-14 | the key of each person that is the last with its key maps to that person |
| `Pedigree.AncestryOfLastWriteWins` | routes/pedigree.js:12-15 | the fold over the persons satisfies last-write-wins: exact key set, and each key maps to the last person carrying it |
| `Pedigree.LastWriteWinsUnique` | routes/pedigree.js:12-15 | any dictionary that satisfies last-write-wins is the fold; the two specifications agree |
| `Pedigree.AncestryValuesFromInput` | routes/pedigree.js:12-15 | every stored person is an element of the input list |
| `Pedigree.AncestrySize` | routes/pedigree.js:12-15 | at most one entry per person, and exactly one per person if and only if no two persons share a key |
| `Pedigree.DistinctKeysIndexEveryPerson` | routes/pedigree.js:12-15 | with pairwise distinct property keys (an absent number counts as `"undefined"`), every person is found under its own key |
| `Pedigree.BuildAncestry` | routes/pedigree.js:12-15 | the loop that starts from an empty dictionary and writes each person in list order yields the fold, and so last-write-wins |
| `Pedigree.Rejection` | routes/pedigree.js:9-10 | nothing is forwarded if and only if there is no transport error and the status is exactly 200; a transport error wins over any response; otherwise the REST error of the response is forwarded, whose status is the response's status code |
| `Pedigree.HandleAncestryResponse` | routes/pedigree.js:8-19 | exactly one of forward and render; a transport error is forwarded whatever the response; a non-200 status forwards the response's REST error; render happens if and only if there is no error and status 200, with view `pedigree` and an ancestry that satisfies last-write-wins over `data.persons` |
| `Pedigree.GetPedigree` | routes/pedigree.js:6-20 | the gateway is asked for the ancestry path of the user's person id with `generations=2`; a transport error in the reply is forwarded; any other forward is the reply's rejection; render happens if and only if the reply has no error and status 200, with view `pedigree` and an ancestry that satisfies last-write-wins over the reply's `data.persons` |

## Left out

- `app.js`: Express setup, static files, logging, the session store, the SDK built per request, and the 404 and error-page middleware. This is framework plumbing.
- `middleware/fs-client.js`, `middleware/fs-session.js`: building the SDK from configuration and the authentication gate in front of the route. These are configuration and session I/O around remote calls. `GetPedigree` takes the session user's person id as given.
- `routes/signin.js`, `routes/oauth-redirect.js`, `routes/signout.js`: the OAuth redirect, the token exchange and the session teardown. These are protocol and session I/O over an SDK that is not part of this model.
- The remote gateway and `res.render` are not modelled as behaviour. The gateway is an input function, and rendering is the `Render` outcome.
- A 200 response without `data.persons`, or a person without `display`, makes the source throw a `TypeError` inside the callback. The model's `Response` always carries a persons list, and every `Person` has a `Display`.
- Ascendancy numbers that are neither strings nor absent (numbers, `null`) are stringified by JavaScript. The model's `ascendancyNumber` is a string or absent.
- An ascendancy number `"__proto__"` would set the dictionary's prototype instead of an own key. The model treats it as an ordinary key.
- The enumeration order of a JavaScript object's keys is not modelled. The dictionary is a Dafny `map`.
- The error object's other properties (`name`, `stack`, being an `Error`) are not modelled. Only `message`, `status` and `body` are.
- `middleware/fs-session.js` logs a failed current-user fetch and still calls `next()`. The route then runs with no session user, and reading `personId` throws a `TypeError`. The model always has a person id.
- An undefined session person id would appear as the text `undefined` in the path. The model's person id is always a string.
- A reply without a transport error is assumed to carry a response. With neither, the source throws a `TypeError` when it reads `statusCode`; the model's `Reply` always holds a `Response`.
