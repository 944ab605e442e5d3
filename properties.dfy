/** Properties of the link-table handlers that relate several requests, or
    that hold for every table the service can reach. */
module LinkProperties {
  import opened ShortCode
  import opened Links

  /** The table the schema creates satisfies the invariant. */
  lemma EmptyValid()
    ensures Valid(Empty)
  {
  }

  /** A create keeps ids unique and below the counter: the new row takes the
      counter's value, which no existing row has. */
  lemma ShortenKeepsValid(t: Table, originalUrl: Option<string>, customCode: Option<string>,
                          first: seq<Draw>, second: seq<Draw>, now: Time)
    requires Valid(t)
    requires |first| == CodeLength && |second| == CodeLength
    ensures Valid(Shorten(t, originalUrl, customCode, first, second, now).after)
  {
    var r := Shorten(t, originalUrl, customCode, first, second, now);
    if r.response.Created? {
      var code := r.response.shortCode;
      forall c | c in r.after.rows
        ensures 1 <= r.after.rows[c].id < r.after.nextId
      {
        if c != code {
          assert r.after.rows[c] == t.rows[c];
        }
      }
      forall c, c' | c in r.after.rows && c' in r.after.rows && c != c'
        ensures r.after.rows[c].id != r.after.rows[c'].id
      {
        if c == code {
          assert r.after.rows[c'].id == t.rows[c'].id < t.nextId;
        } else if c' == code {
          assert r.after.rows[c].id == t.rows[c].id < t.nextId;
        }
      }
    }
  }

  /** A delete keeps the invariant: it only removes a row. */
  lemma DeleteKeepsValid(t: Table, code: string)
    requires Valid(t)
    ensures Valid(Delete(t, code).after)
  {
  }

  /** A redirect keeps the invariant: the clicked row keeps its id and now
      has both a click and a last-click time. */
  lemma FollowKeepsValid(t: Table, code: string, now: Time)
    requires Valid(t)
    ensures Valid(Follow(t, code, now).after)
  {
  }

  /** Without a custom code the handler's own checks guarantee a fresh code
      only when one of its two draws is fresh: the second is never checked. */
  lemma CandidateFreshIff(t: Table, customCode: Option<string>, first: seq<Draw>, second: seq<Draw>)
    requires |first| == CodeLength && |second| == CodeLength
    requires !Given(customCode)
    ensures CandidateCode(t, customCode, first, second) !in t.rows <==>
              Spell(first) !in t.rows || Spell(second) !in t.rows
    ensures Spell(first) in t.rows && Spell(second) in t.rows ==>
              CandidateCode(t, customCode, first, second) in t.rows
  {
  }

  /** A create inserts exactly the candidate code, when that code is fresh. */
  lemma ShortenInsertsCandidate(t: Table, originalUrl: Option<string>, customCode: Option<string>,
                                first: seq<Draw>, second: seq<Draw>, now: Time)
    requires |first| == CodeLength && |second| == CodeLength
    requires Given(originalUrl) && !(Given(customCode) && customCode.value in t.rows)
    ensures var r := Shorten(t, originalUrl, customCode, first, second, now);
            && (r.response.Created? <==> CandidateCode(t, customCode, first, second) !in t.rows)
            && (r.response.Created? ==> r.response.shortCode == CandidateCode(t, customCode, first, second))
  {
  }

  /** The create handler draws at most two codes: a custom code makes both
      draws irrelevant, and a fresh first code makes the second irrelevant. */
  lemma ShortenDrawsAtMostTwo(t: Table, originalUrl: Option<string>, customCode: Option<string>,
                              first: seq<Draw>, second: seq<Draw>,
                              first': seq<Draw>, second': seq<Draw>, now: Time)
    requires |first| == CodeLength && |second| == CodeLength
    requires |first'| == CodeLength && |second'| == CodeLength
    ensures Given(customCode) ==>
              Shorten(t, originalUrl, customCode, first, second, now)
                == Shorten(t, originalUrl, customCode, first', second', now)
    ensures !Given(customCode) && Spell(first) !in t.rows ==>
              Shorten(t, originalUrl, customCode, first, second, now)
                == Shorten(t, originalUrl, customCode, first, second', now)
  {
  }

  /** The unchecked second draw can collide: whenever the table holds the
      codes of both draws, a create without a custom code fails with a 500
      and changes nothing. */
  lemma BothDrawsTakenFails(t: Table, originalUrl: Option<string>, first: seq<Draw>, second: seq<Draw>, now: Time)
    requires |first| == CodeLength && |second| == CodeLength
    requires Given(originalUrl) && Spell(first) in t.rows && Spell(second) in t.rows
    ensures Shorten(t, originalUrl, None, first, second, now) == Step(t, ServerError(DatabaseError))
  {
  }

  /** The double collision occurs on a reachable table: a valid one-row table
      whose code both draws spell. */
  lemma DoubleCollisionOccurs(draws: seq<Draw>, now: Time)
    requires |draws| == CodeLength
    ensures var t := Table(map[Spell(draws) := NewLink(1, "https://a.com", 0)], 2);
            && Valid(t)
            && Shorten(t, Some("https://b.com"), None, draws, draws, now) == Step(t, ServerError(DatabaseError))
  {
  }

  /** A repeated custom code is refused the second time, whatever URL comes
      with it, and the table keeps the one row the first request created. */
  lemma CustomCodeTwice(t: Table, originalUrl: Option<string>, originalUrl': Option<string>,
                        customCode: Option<string>, first: seq<Draw>, second: seq<Draw>,
                        now: Time, now': Time)
    requires |first| == CodeLength && |second| == CodeLength
    requires Given(originalUrl) && Given(originalUrl') && Given(customCode) && customCode.value !in t.rows
    ensures var r1 := Shorten(t, originalUrl, customCode, first, second, now);
            var r2 := Shorten(r1.after, originalUrl', customCode, first, second, now');
            && r1.response.Status() == 201
            && r2 == Step(r1.after, BadRequest(CustomCodeExists))
            && r2.after.rows[customCode.value].originalUrl == originalUrl.value
  {
  }

  /** After a delete the code is gone: a lookup, a redirect and a second
      delete all answer 404. */
  lemma DeleteThenAbsent(t: Table, code: string, now: Time)
    ensures var after := Delete(t, code).after;
            && Lookup(after, code) == NotFound(LinkNotFound)
            && Follow(after, code, now) == Step(after, NotFound(LinkNotFound))
            && Delete(after, code) == Step(after, NotFound(LinkNotFound))
  {
  }

  /** The table after a series of redirects to one code, one per time. */
  function FollowAll(t: Table, code: string, times: seq<Time>): Table
    decreases |times|
  {
    if times == [] then t else FollowAll(Follow(t, code, times[0]).after, code, times[1..])
  }

  /** N redirects to a present code add exactly N to its click count, leave
      the last-click time at the last of them and change no other row. */
  lemma {:induction false} FollowAllCounts(t: Table, code: string, times: seq<Time>)
    requires code in t.rows
    ensures var after := FollowAll(t, code, times);
            && after.rows.Keys == t.rows.Keys
            && after.nextId == t.nextId
            && after.rows[code].clickCount == t.rows[code].clickCount + |times|
            && after.rows[code].lastClicked == (if times == [] then t.rows[code].lastClicked else Some(times[|times| - 1]))
            && after.rows[code].originalUrl == t.rows[code].originalUrl
            && after.rows[code].id == t.rows[code].id
            && (forall c :: c in t.rows && c != code ==> after.rows[c] == t.rows[c])
    decreases |times|
  {
    if times != [] {
      var next := Follow(t, code, times[0]).after;
      FollowAllCounts(next, code, times[1..]);
      if |times| > 1 {
        assert times[1..][|times[1..]| - 1] == times[|times| - 1];
      }
    }
  }

  /** A new link, followed once, redirects to its URL and reports one click;
      a generated code is six alphanumeric characters. */
  lemma CreateFollowLookup(t: Table, originalUrl: Option<string>, customCode: Option<string>,
                           first: seq<Draw>, second: seq<Draw>, created: Time, clicked: Time)
    requires |first| == CodeLength && |second| == CodeLength
    requires Shorten(t, originalUrl, customCode, first, second, created).response.Created?
    ensures var r1 := Shorten(t, originalUrl, customCode, first, second, created);
            var code := r1.response.shortCode;
            var r2 := Follow(r1.after, code, clicked);
            && Given(originalUrl)
            && r1.response.Status() == 201
            && (!Given(customCode) ==> IsShortCode(code))
            && r2.response == Redirect(originalUrl.value)
            && Lookup(r2.after, code) == Row(code, Link(t.nextId, originalUrl.value, created, 1, Some(clicked)))
  {
  }
}
