/** The service's request handlers over a table they update in place. Each
    method is one request, taken as a single sequential step. Shorten,
    Delete and Follow have exactly the effect of the Links function of the
    same name and keep the invariant; Get returns Links.Lookup of the
    current table and changes nothing. */
module Store {
  import opened ShortCode
  import opened Links

  class LinkStore {
    var rows: map<string, Link>
    var nextId: nat

    /** The abstract value of the store. */
    function State(): Table
      reads this
    {
      Table(rows, nextId)
    }

    ghost predicate Valid()
      reads this
    {
      Links.Valid(State())
    }

    constructor ()
      ensures State() == Empty && Valid()
    {
      rows := map[];
      nextId := 1;
    }

    /** POST /shorten. */
    method Shorten(originalUrl: Option<string>, customCode: Option<string>,
                   first: seq<Draw>, second: seq<Draw>, now: Time) returns (r: Response)
      requires Valid()
      requires |first| == CodeLength && |second| == CodeLength
      modifies this
      ensures Valid()
      ensures Step(State(), r) == Links.Shorten(old(State()), originalUrl, customCode, first, second, now)
    {
      ghost var before := State();
      if !Given(originalUrl) {
        return BadRequest(UrlRequired);
      }
      var code: string;
      if Given(customCode) {
        code := customCode.value;
      } else {
        code := GenerateShortCode(first);
      }
      if code in rows {
        if Given(customCode) {
          return BadRequest(CustomCodeExists);
        }
        code := GenerateShortCode(second);
      }
      assert code == CandidateCode(before, customCode, first, second);
      // the unique constraint on short_code refuses a second row with the same code
      if code in rows {
        return ServerError(DatabaseError);
      }
      var id := nextId;
      rows := rows[code := NewLink(id, originalUrl.value, now)];
      nextId := nextId + 1;
      r := Created(id, code, originalUrl.value);
      assert Step(State(), r) == Insert(before, originalUrl.value, code, now);
    }

    /** GET /api/links/:code. */
    method Get(code: string) returns (r: Response)
      ensures r == Lookup(State(), code)
    {
      if code in rows {
        r := Row(code, rows[code]);
      } else {
        r := NotFound(LinkNotFound);
      }
    }

    /** DELETE /api/links/:code. */
    method Delete(code: string) returns (r: Response)
      requires Valid()
      modifies this
      ensures Valid()
      ensures Step(State(), r) == Links.Delete(old(State()), code)
    {
      if code !in rows {
        return NotFound(LinkNotFound);
      }
      rows := rows - {code};
      r := Deleted(LinkDeleted);
    }

    /** GET /:code. */
    method Follow(code: string, now: Time) returns (r: Response)
      requires Valid()
      modifies this
      ensures Valid()
      ensures Step(State(), r) == Links.Follow(old(State()), code, now)
    {
      if code !in rows {
        return NotFound(LinkNotFound);
      }
      var target := rows[code].originalUrl;
      rows := rows[code := Clicked(rows[code], now)];
      r := Redirect(target);
    }
  }
}
