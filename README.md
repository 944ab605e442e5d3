# URL shortener: short codes and the links table

A model of the live request handlers of a small URL-shortening service
(`server.js`). The service accepts a long URL, issues a six-character
alphanumeric short code (or takes a custom one), stores the mapping in a
`links` table, and redirects visitors from the code to the URL while counting
clicks and stamping the time of the last one.

The model has four modules:

- `ShortCode` (`short_code.dfy`): the code generator. The random source is
  replaced by the six indices it would have drawn (`Draw`, a natural number
  below 62). `GenerateShortCode` is the generator's loop; `Spell` is the code a
  sequence of draws spells, and `Unspell` its inverse on alphanumeric strings.
- `Links` (`links.dfy`): the `links` table as a value (`Table`: rows keyed by
  `short_code`, plus the counter the next id comes from) and each handler as a
  pure function from the table before a request to a `Step` (the table after it
  and the `Response`, whose `Status()` is the HTTP status). It also holds the
  table invariant `Valid` and the listing query `ListAll`.
- `Store` (`link_store.dfy`): class `LinkStore`, whose `rows` and `nextId`
  fields the handler methods update in place. `Shorten`, `Delete` and
  `Follow` are proved to have exactly the effect of the `Links` function of
  the same name and to keep `Valid`; `Get` is proved to return
  `Links.Lookup` of the current table and changes nothing.
- `LinkProperties` (`properties.dfy`): properties relating several requests
  (invariant preservation, delete-then-lookup, repeated redirects, repeated
  custom codes, the collision behaviour of create).

Behaviour the model follows from the code:

- Create is `POST /shorten`. A missing or empty `original_url` gives 400. An
  empty `custom_code` counts as absent (JavaScript truthiness), and so does a
  missing one.
- A custom code that is already taken gives status 400 ("Custom code already
  exists"), where 409 Conflict would be the usual status; the model keeps
  the handler's 400.
- Custom codes are not validated: any non-empty string is accepted, so a
  stored code is six alphanumeric characters only when it was generated.
- Without a custom code, a collision makes the handler draw one more code and
  insert it without checking it. The handler alone therefore does not
  guarantee a fresh code. The model lets the table's unique constraint refuse
  a taken code: that insert becomes the 500 "Database error" response, and the
  table is left unchanged (`Links.Insert`).
- Each request is one sequential step. The redirect handler's SELECT and
  UPDATE are taken together as one step.
- The clock is a parameter (`now`). It gives `created_at` on insert and
  `last_clicked` on redirect.
- The schema script (`init-db.sql`) is not part of this model. The column
  defaults are taken to be the usual ones for this table: ids from a serial
  counter starting at 1, `click_count` 0, `created_at` the insert time, and
  `last_clicked` null.

## Model

| member | source | states |
|---|---|---|
| `ShortCode.GenerateShortCode` | server.js:173-180 | the generated code has exactly six characters, each alphanumeric, and is the code the six draws spell |
| `ShortCode.CharsLayout` | server.js:174 | the alphabet has 62 characters: `A`–`Z` at positions 0–25, `a`–`z` at 26–51 and `0`–`9` at 52–61 |
| `ShortCode.CharOf` | server.js:177 | every character a draw selects is alphanumeric |
| `ShortCode.DrawOf` | server.js:174-177 | every alphanumeric character is selected by some draw |
| `ShortCode.CharOfInjective` | server.js:174 | the alphabet has no repeated character: distinct draws select distinct characters |
| `ShortCode.Spell` | server.js:175-178 | the code spelled by a sequence of draws has one alphanumeric character per draw |
| `ShortCode.Unspell` | server.js:174-177 | an alphanumeric string is decoded to one draw per character |
| `ShortCode.SpellUnspell` | server.js:173-180 | decoding an alphanumeric string and spelling it again gives the string back |
| `ShortCode.UnspellSpell` | server.js:173-180 | spelling loses nothing: the draws are recovered from the code |
| `ShortCode.SpellInjective` | server.js:173-180 | two different sequences of draws never spell the same code |
| `ShortCode.EveryShortCodeIsSpelled` | server.js:173-180 | the generator can produce every six-character alphanumeric string |
| `Links.Insert` | server.js:199-200 | the insert succeeds exactly when the code is not yet in the table; a taken code gives 500 "Database error" and no change; a success adds exactly one row under that code, numbered by the counter, with zero clicks and no last click, keeps every other row, advances the counter, echoes id, code and URL, and keeps the invariant |
| `Links.CandidateCode` | server.js:190-198 | the code passed to the insert is the custom code when one is given; otherwise it is a six-character alphanumeric code, the first draw's when that is free and the second draw's (unchecked) when it is taken |
| `Links.Shorten` | server.js:185-205 | missing or empty URL gives 400 "Original URL is required"; a taken custom code gives 400 "Custom code already exists"; 500 exactly when there is no custom code and both draws collide; every refusal leaves the table unchanged; a 201 echoes the id (the counter), the code and the URL, adds exactly that one fresh row with zero clicks and no last click, keeps all other rows, and advances the counter; the code is the custom code, or else a generated six-character alphanumeric code from the first or second draw |
| `Links.Lookup` | server.js:238-248 | 200 with the row whose code is exactly the requested one when it exists, otherwise 404 "Link not found" |
| `Links.Delete` | server.js:251-261 | 200 "Link deleted" exactly when the code was present; afterwards the code is absent, every other row is unchanged and the counter is unchanged; an absent code gives 404 and no change |
| `Links.Follow` | server.js:264-282 | an absent code gives 404 and no change; a present code gives 302 to that row's URL, adds exactly one click to that row, sets its last click to now, keeps its id, URL and creation time, and changes no other row |
| `Links.ListAll` | server.js:208-229 | the listing has exactly as many entries as the table has rows; its lemmas below state its entries, their distinctness, coverage and order |
| `Links.LargestIdExists` | server.js:219 | a non-empty table has a row with the largest id |
| `Links.ListAllEntries` | server.js:210-220 | every entry of the listing is a row of the table, with its own code |
| `Links.ListAllDistinct` | server.js:210-220 | the listing holds each code at most once |
| `Links.ListAllCovers` | server.js:210-220 | the listing holds every row of the table |
| `Links.ListAllDescending` | server.js:219 | the listing is ordered by id, largest first |
| `Links.ListAllStrictlyDescending` | server.js:219 | on a valid table, ids in the listing strictly decrease |
| `Links.ListAllHead` | server.js:219 | the listing starts with a row that has the largest id, followed by the listing of the other rows |
| `Store.LinkStore.constructor` | server.js:156-165 | the store starts as the empty table with the counter at 1, which satisfies the invariant |
| `Store.LinkStore.Shorten` | server.js:185-205 | changes the table exactly as `Links.Shorten` says, returns its response, and keeps the invariant |
| `Store.LinkStore.Get` | server.js:238-248 | returns `Links.Lookup` of the current table and changes nothing |
| `Store.LinkStore.Delete` | server.js:251-261 | changes the table exactly as `Links.Delete` says, returns its response, and keeps the invariant |
| `Store.LinkStore.Follow` | server.js:264-282 | changes the table exactly as `Links.Follow` says, returns its response, and keeps the invariant |
| `LinkProperties.EmptyValid` | server.js:156-165 | the empty table with the counter at 1 satisfies the invariant |
| `LinkProperties.ShortenKeepsValid` | server.js:190-200 | create keeps ids at least 1, below the counter and distinct, and keeps "last click set exactly when clicked" |
| `LinkProperties.DeleteKeepsValid` | server.js:254 | delete keeps the invariant |
| `LinkProperties.FollowKeepsValid` | server.js:269-275 | redirect keeps the invariant |
| `LinkProperties.CandidateFreshIff` | server.js:190-199 | without a custom code, the code the handler passes to the insert is fresh exactly when the first or the second draw is fresh; when both collide it is taken |
| `LinkProperties.ShortenInsertsCandidate` | server.js:190-200 | once the URL and custom-code checks pass, create succeeds exactly when the handler's code is fresh, and it inserts that code |
| `LinkProperties.ShortenDrawsAtMostTwo` | server.js:190-199 | with a custom code the draws do not matter; with a fresh first code the second draw does not matter |
| `LinkProperties.BothDrawsTakenFails` | server.js:193-203 | on every table that holds the codes of both draws, create with a URL and no custom code answers 500 "Database error" and changes nothing |
| `LinkProperties.DoubleCollisionOccurs` | server.js:193-203 | the double collision happens on a valid table: a one-row table holding the code that two equal draws spell, where create without a custom code answers 500 and changes nothing |
| `LinkProperties.CustomCodeTwice` | server.js:190-200 | creating with the same custom code twice, with any two URLs, gives 201 and then 400 "Custom code already exists"; the second call changes nothing, and the row keeps the first call's URL |
| `LinkProperties.DeleteThenAbsent` | server.js:238-282 | after a delete, a lookup, a redirect and a second delete of that code all answer 404 and change nothing |
| `LinkProperties.FollowAllCounts` | server.js:267-277 | N redirects to a present code add exactly N clicks and leave the last click at the last redirect's time; its id and URL, all other rows and the set of codes are unchanged |
| `LinkProperties.CreateFollowLookup` | server.js:185-282 | after any successful create (custom code, first draw or second draw), one redirect goes to the link's URL and the lookup then shows the row with its id, URL, creation time, one click and that click's time; a generated code is six alphanumeric characters |

## Left out

- HTTP plumbing: Express setup, CORS, JSON body parsing, static files, `app.listen` and the health check (`process.uptime()`). Request bodies are taken as optional strings; a non-string JSON value for `original_url` or `custom_code` is not modelled.
- Database initialisation from `init-db.sql` and the `pg` pool. This is file and network I/O. The schema is not part of this model; its defaults are taken as described above.
- The random source. `Math.random` and `Math.floor` are floating point, so each call of the generator receives its six draws as a parameter. Uniformity and collision probability are not modelled.
- Concurrency. Each request is one sequential step, so the race between the redirect's SELECT and UPDATE is not captured: a delete can come between them. Concurrent redirects are modelled only as a sequence (`LinkProperties.FollowAllCounts`).
- The 500 "Database error" paths other than the duplicate insert, such as a lost connection.
- Ids after a failed insert. A serial column may use up a value when an insert fails; the model leaves the counter unchanged.
- The listing route's timestamp conversion to ISO-8601 strings (`toISOString`) is date/time library behaviour and is not modelled. `Links.ListAll` covers only the rows and their order. Rows with equal ids cannot occur on a valid table, and the model breaks such ties arbitrarily.
- `Store.LinkStore.constructor` models a first start on an empty database only. The schema script's text is not available; if it creates the table only when missing, a restart keeps the existing rows and counter, which the model does not capture.
- The commented-out older copy of the server at the top of `server.js`.
