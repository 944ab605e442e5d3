/** The `links` table and what each HTTP handler does to it, as pure
    functions from the table before a request to the table after it and the
    response. The table is keyed by `short_code`, the column the schema
    declares unique; ids come from a counter, as a serial column hands
    them out. */
module Links {
  import opened ShortCode

  datatype Option<T> = None | Some(value: T)

  /** A timestamp, supplied by the caller in place of the database clock. */
  type Time = nat

  /** One row of the table, without its key. */
  datatype Link = Link(
    id: nat,
    originalUrl: string,
    createdAt: Time,
    clickCount: nat,
    lastClicked: Option<Time>)

  /** The rows, keyed by short code, and the id the next insert receives. */
  datatype Table = Table(rows: map<string, Link>, nextId: nat)

  /** The table as the schema creates it. */
  const Empty: Table := Table(map[], 1)

  const UrlRequired: string := "Original URL is required"
  const CustomCodeExists: string := "Custom code already exists"
  const LinkNotFound: string := "Link not found"
  const LinkDeleted: string := "Link deleted"
  const DatabaseError: string := "Database error"

  /** What a handler sends back: a status code and its body. */
  datatype Response =
    | Created(id: nat, shortCode: string, originalUrl: string)
    | Row(shortCode: string, link: Link)
    | Deleted(message: string)
    | Redirect(location: string)
    | BadRequest(error: string)
    | NotFound(error: string)
    | ServerError(error: string)
  {
    function Status(): (code: nat)
      ensures code in {200, 201, 302, 400, 404, 500}
      ensures code == 200 <==> Row? || Deleted?
    {
      match this
      case Created(_, _, _) => 201
      case Row(_, _) => 200
      case Deleted(_) => 200
      case Redirect(_) => 302
      case BadRequest(_) => 400
      case NotFound(_) => 404
      case ServerError(_) => 500
    }
  }

  /** A handler's effect: the table afterwards and the response. */
  datatype Step = Step(after: Table, response: Response)

  /** A request field the handler treats as present: JavaScript's truthiness
      makes a missing field and the empty string alike. */
  predicate Given(field: Option<string>) {
    field.Some? && field.value != ""
  }

  /** A row as the insert creates it: counter at zero, never clicked. */
  function NewLink(id: nat, originalUrl: string, now: Time): Link {
    Link(id, originalUrl, now, 0, None)
  }

  /** The table invariant: the counter starts at 1, ids are below it and
      never shared, and a row has a last-click time exactly when it has
      clicks. */
  predicate Valid(t: Table) {
    && 1 <= t.nextId
    && (forall c :: c in t.rows ==> 1 <= t.rows[c].id < t.nextId)
    && (forall c, c' :: c in t.rows && c' in t.rows && c != c' ==> t.rows[c].id != t.rows[c'].id)
    && (forall c :: c in t.rows ==> (t.rows[c].clickCount == 0 <==> t.rows[c].lastClicked.None?))
  }

  /** The INSERT: refused by the unique constraint when the code is taken;
      otherwise one new row, numbered by the counter, and the 201 echo. */
  function Insert(t: Table, originalUrl: string, code: string, now: Time): (r: Step)
    ensures r.response.Created? <==> code !in t.rows
    ensures code in t.rows ==> r == Step(t, ServerError(DatabaseError))
    ensures code !in t.rows ==>
              && r.response == Created(t.nextId, code, originalUrl)
              && r.after.rows.Keys == t.rows.Keys + {code}
              && r.after.rows[code] == NewLink(t.nextId, originalUrl, now)
              && (forall c :: c in t.rows ==> r.after.rows[c] == t.rows[c])
              && r.after.nextId == t.nextId + 1
    // the new row's id is one no other row has
    ensures Valid(t) ==> Valid(r.after)
  {
    if code in t.rows then
      Step(t, ServerError(DatabaseError))
    else
      Step(Table(t.rows[code := NewLink(t.nextId, originalUrl, now)], t.nextId + 1),
           Created(t.nextId, code, originalUrl))
  }

  /** The code the create handler hands to the INSERT, once the URL and
      custom-code checks have passed: the custom code, else the first
      generated code, else (on a collision) the second, unchecked. */
  function CandidateCode(t: Table, customCode: Option<string>, first: seq<Draw>, second: seq<Draw>): (code: string)
    requires |first| == CodeLength && |second| == CodeLength
    ensures Given(customCode) ==> code == customCode.value
    ensures !Given(customCode) ==> IsShortCode(code)
    ensures !Given(customCode) && Spell(first) !in t.rows ==> code == Spell(first)
    ensures !Given(customCode) && Spell(first) in t.rows ==> code == Spell(second)
  {
    if Given(customCode) then customCode.value
    else if Spell(first) in t.rows then Spell(second)
    else Spell(first)
  }

  /** POST /shorten. `first` and `second` are the draws of the two calls to
      the generator the handler may make; the second is used only when the
      first code is already taken. */
  function Shorten(t: Table, originalUrl: Option<string>, customCode: Option<string>,
                   first: seq<Draw>, second: seq<Draw>, now: Time): (r: Step)
    requires |first| == CodeLength && |second| == CodeLength
    // every refusal leaves the table as it was
    ensures !r.response.Created? ==> r.after == t
    ensures r.response.Status() in {201, 400, 500}
    ensures r.response.Status() == 400 <==>
              !Given(originalUrl) || (Given(customCode) && customCode.value in t.rows)
    ensures !Given(originalUrl) ==> r.response == BadRequest(UrlRequired)
    ensures Given(originalUrl) && Given(customCode) && customCode.value in t.rows ==>
              r.response == BadRequest(CustomCodeExists)
    // without a custom code the insert fails only when both draws collide
    ensures r.response.Status() == 500 <==>
              Given(originalUrl) && !Given(customCode) && Spell(first) in t.rows && Spell(second) in t.rows
    // a success adds exactly one fresh row, numbered by the counter, and echoes it
    ensures r.response.Created? ==>
              && Given(originalUrl)
              && r.response.originalUrl == originalUrl.value
              && r.response.id == t.nextId
              && r.response.shortCode !in t.rows
              && r.after.rows == t.rows[r.response.shortCode := NewLink(t.nextId, originalUrl.value, now)]
              && r.after.nextId == t.nextId + 1
    ensures r.response.Created? && Given(customCode) ==> r.response.shortCode == customCode.value
    ensures r.response.Created? && !Given(customCode) ==>
              && IsShortCode(r.response.shortCode)
              && (r.response.shortCode == Spell(first) || r.response.shortCode == Spell(second))
  {
    if !Given(originalUrl) then
      Step(t, BadRequest(UrlRequired))
    else if Given(customCode) && customCode.value in t.rows then
      Step(t, BadRequest(CustomCodeExists))
    else
      Insert(t, originalUrl.value, CandidateCode(t, customCode, first, second), now)
  }

  /** GET /api/links/:code: the row with exactly that code, or 404. */
  function Lookup(t: Table, code: string): (r: Response)
    ensures r.Row? <==> code in t.rows
    ensures r.Row? ==> r.shortCode == code && r.link == t.rows[code] && r.Status() == 200
    ensures !r.Row? ==> r == NotFound(LinkNotFound) && r.Status() == 404
  {
    if code in t.rows then Row(code, t.rows[code]) else NotFound(LinkNotFound)
  }

  /** DELETE /api/links/:code: removes that code's row; 404 when none matched. */
  function Delete(t: Table, code: string): (r: Step)
    ensures r.response.Status() == 200 <==> code in t.rows
    ensures r.response == if code in t.rows then Deleted(LinkDeleted) else NotFound(LinkNotFound)
    ensures code !in r.after.rows
    ensures r.after.rows.Keys == t.rows.Keys - {code}
    ensures forall c :: c in r.after.rows ==> r.after.rows[c] == t.rows[c]
    ensures r.after.nextId == t.nextId
    ensures code !in t.rows ==> r.after == t
  {
    if code in t.rows then
      Step(Table(t.rows - {code}, t.nextId), Deleted(LinkDeleted))
    else
      Step(t, NotFound(LinkNotFound))
  }

  /** The row after one more click at `now`. */
  function Clicked(l: Link, now: Time): Link {
    l.(clickCount := l.clickCount + 1, lastClicked := Some(now))
  }

  /** GET /:code: 404 without any change when the code is absent; otherwise
      counts the click, stamps it, and redirects to the stored URL. */
  function Follow(t: Table, code: string, now: Time): (r: Step)
    ensures r.response.Status() == 302 <==> code in t.rows
    ensures code !in t.rows ==> r == Step(t, NotFound(LinkNotFound))
    ensures code in t.rows ==>
              && r.response == Redirect(t.rows[code].originalUrl)
              && r.after.rows.Keys == t.rows.Keys
              && r.after.rows[code].clickCount == t.rows[code].clickCount + 1
              && r.after.rows[code].lastClicked == Some(now)
              && r.after.rows[code].id == t.rows[code].id
              && r.after.rows[code].originalUrl == t.rows[code].originalUrl
              && r.after.rows[code].createdAt == t.rows[code].createdAt
    ensures forall c :: c in t.rows && c != code ==> r.after.rows[c] == t.rows[c]
    ensures r.after.nextId == t.nextId
  {
    if code in t.rows then
      Step(Table(t.rows[code := Clicked(t.rows[code], now)], t.nextId), Redirect(t.rows[code].originalUrl))
    else
      Step(t, NotFound(LinkNotFound))
  }

  /** Row `c` carries the largest id in `rows`. */
  predicate HasLargestId(rows: map<string, Link>, c: string) {
    c in rows && forall c' :: c' in rows ==> rows[c'].id <= rows[c].id
  }

  /** Some row carries the largest id of a non-empty table. */
  lemma {:induction false} LargestIdExists(rows: map<string, Link>)
    requires rows != map[]
    ensures exists c :: HasLargestId(rows, c)
    decreases |rows|
  {
    var c0 :| c0 in rows;
    var rest := rows - {c0};
    assert rows.Keys == rest.Keys + {c0};
    if rest == map[] {
      assert rows.Keys == {c0};
      assert HasLargestId(rows, c0);
    } else {
      LargestIdExists(rest);
      var m :| HasLargestId(rest, m);
      var top := if rows[c0].id <= rows[m].id then m else c0;
      forall c' | c' in rows
        ensures rows[c'].id <= rows[top].id
      {
        if c' != c0 {
          assert c' in rest;
        }
      }
      assert HasLargestId(rows, top);
    }
  }

  /** GET /api/links (the ORDER BY id DESC query): the rows, a row with the
      largest id first. */
  ghost function ListAll(rows: map<string, Link>): (s: seq<(string, Link)>)
    ensures |s| == |rows|
    decreases |rows|
  {
    if rows == map[] then []
    else
      LargestIdExists(rows);
      var c :| HasLargestId(rows, c);
      var rest := rows - {c};
      assert rows.Keys == rest.Keys + {c};
      [(c, rows[c])] + ListAll(rest)
  }

  /** The head of the listing: a row of the table with the largest id,
      followed by the listing of the other rows. */
  lemma ListAllHead(rows: map<string, Link>)
    requires rows != map[]
    ensures var s := ListAll(rows);
            && HasLargestId(rows, s[0].0)
            && s[0].1 == rows[s[0].0]
            && s[1..] == ListAll(rows - {s[0].0})
  {
  }

  /** The listing holds only rows of the table, each with its own code. */
  lemma {:induction false} ListAllEntries(rows: map<string, Link>)
    ensures var s := ListAll(rows);
            forall i :: 0 <= i < |s| ==> s[i].0 in rows && rows[s[i].0] == s[i].1
    decreases |rows|
  {
    if rows != map[] {
      var s := ListAll(rows);
      ListAllHead(rows);
      var rest := rows - {s[0].0};
      var tail := ListAll(rest);
      ListAllEntries(rest);
      forall i | 0 <= i < |s|
        ensures s[i].0 in rows && rows[s[i].0] == s[i].1
      {
        if i > 0 {
          assert s[i] == tail[i - 1];
        }
      }
    }
  }

  /** The listing holds each code at most once. */
  lemma {:induction false} ListAllDistinct(rows: map<string, Link>)
    ensures var s := ListAll(rows);
            forall i, j :: 0 <= i < j < |s| ==> s[i].0 != s[j].0
    decreases |rows|
  {
    if rows != map[] {
      var s := ListAll(rows);
      ListAllHead(rows);
      var rest := rows - {s[0].0};
      var tail := ListAll(rest);
      ListAllDistinct(rest);
      ListAllEntries(rest);
      forall i, j | 0 <= i < j < |s|
        ensures s[i].0 != s[j].0
      {
        assert s[j] == tail[j - 1];
        if i > 0 {
          assert s[i] == tail[i - 1];
        }
      }
    }
  }

  /** The listing misses no row. */
  lemma {:induction false} ListAllCovers(rows: map<string, Link>)
    ensures var s := ListAll(rows);
            forall c :: c in rows ==> exists i :: 0 <= i < |s| && s[i].0 == c
    decreases |rows|
  {
    if rows != map[] {
      var s := ListAll(rows);
      ListAllHead(rows);
      var rest := rows - {s[0].0};
      var tail := ListAll(rest);
      ListAllCovers(rest);
      forall c | c in rows
        ensures exists i :: 0 <= i < |s| && s[i].0 == c
      {
        if c == s[0].0 {
          assert s[0].0 == c;
        } else {
          assert c in rest;
          var i :| 0 <= i < |tail| && tail[i].0 == c;
          assert s[i + 1].0 == c;
        }
      }
    }
  }

  /** The listing is ordered by id, largest first. */
  lemma {:induction false} ListAllDescending(rows: map<string, Link>)
    ensures var s := ListAll(rows);
            forall i, j :: 0 <= i < j < |s| ==> s[j].1.id <= s[i].1.id
    decreases |rows|
  {
    if rows != map[] {
      var s := ListAll(rows);
      ListAllHead(rows);
      var rest := rows - {s[0].0};
      var tail := ListAll(rest);
      ListAllDescending(rest);
      ListAllEntries(rest);
      assert s == [s[0]] + tail;
      forall i, j | 0 <= i < j < |s|
        ensures s[j].1.id <= s[i].1.id
      {
        var k := s[j].0;
        assert s[j] == tail[j - 1];
        assert k in rest && rest[k] == s[j].1;
        if i == 0 {
          assert rows[k].id <= rows[s[0].0].id;
        } else {
          assert s[i] == tail[i - 1];
        }
      }
    }
  }

  /** On a valid table the listing is strictly ordered: ids are distinct. */
  lemma ListAllStrictlyDescending(t: Table)
    requires Valid(t)
    ensures var s := ListAll(t.rows);
            forall i, j :: 0 <= i < j < |s| ==> s[j].1.id < s[i].1.id
  {
    ListAllDistinct(t.rows);
    ListAllEntries(t.rows);
    ListAllDescending(t.rows);
  }
}
