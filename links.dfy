/** LinksService: creating, reading, changing and deleting a user's short
    links. The Doctrine repository is a map from link id to Link object
    with the next auto-increment value beside it; `persist` and `flush`
    take effect at once. The clock, the random draws and the `$_SERVER`
    entries the service reads are parameters. */
module Links {
  import opened Common
  import opened Charset
  import opened RandomStrings
  import opened Entity
  import opened Users

  /** `$_SERVER['HTTPS']` (None when unset) and `$_SERVER['SERVER_NAME']`. */
  datatype ServerEnv = ServerEnv(https: Option<string>, serverName: string)

  /** The scheme `makeShortUrl` writes: https when HTTPS is set, not empty
      and not "off". */
  function Scheme(env: ServerEnv): (s: string)
    ensures s == "https" || s == "http"
    ensures s == "https" <==> !EmptyOptString(env.https) && env.https.value != "off"
  {
    if !EmptyOptString(env.https) && env.https.value != "off" then "https" else "http"
  }

  /** `makeShortUrl`: `"%s://%s/%s"` of the scheme, the server name and the
      code. */
  function MakeShortUrl(env: ServerEnv, code: string): (u: string)
    ensures |u| == |Scheme(env)| + 3 + |env.serverName| + 1 + |code|
    ensures u[..|Scheme(env)|] == Scheme(env)
    ensures u[|Scheme(env)|..|Scheme(env)| + 3] == "://"
    ensures u[|Scheme(env)| + 3..|u| - |code| - 1] == env.serverName
    ensures u[|u| - |code| - 1] == '/'
    ensures u[|u| - |code|..] == code
  {
    var u := Scheme(env) + "://" + env.serverName + "/" + code;
    assert u[|u| - |code|..] == code;
    u
  }

  /** Under one server, distinct codes give distinct short URLs. */
  lemma ShortUrlInjective(env: ServerEnv, c1: string, c2: string)
    ensures MakeShortUrl(env, c1) == MakeShortUrl(env, c2) <==> c1 == c2
  {
    var u1, u2 := MakeShortUrl(env, c1), MakeShortUrl(env, c2);
    if u1 == u2 {
      assert |c1| == |c2|;
      assert c1 == u1[|u1| - |c1|..];
    }
  }

  /** The repository's `['user' => $currentUser->getId()]` filter. */
  predicate OwnedBy(row: LinkRow, owner: User)
  {
    row.user.Some? && row.user.value.id == owner.id
  }

  /** A row as the links table stores it: every NOT NULL column is set. */
  predicate Complete(row: LinkRow)
  {
    && row.id.Some? && row.url.Some? && row.code.Some? && row.shortUrl.Some?
    && row.category.Some? && row.updatedAt.Some? && row.user.Some?
  }

  /** The setter chain of `create`: a new Link with every field but the
      id set, and the counter at 0. */
  method NewLink(category: string, now: Timestamp, url: string, shortUrl: string, code: string, user: User)
      returns (link: Link)
    ensures fresh(link)
    ensures link.Row() == LinkRow(None, Some(url), Some(code), Some(shortUrl), Some(category), 0, Some(now), Some(user))
  {
    link := new Link();
    var l := link.SetCategory(category);
    l := l.SetUpdatedAt(now);
    l := l.SetUrl(url);
    l := l.SetShortUrl(shortUrl);
    l := l.SetCode(code);
    l := l.SetUser(user);
  }

  /** The setter chain of `update`: a new url, category and update time,
      every other field as it was. */
  method Rewrite(link: Link, url: string, category: string, now: Timestamp)
    modifies link
    ensures link.Row() == old(link.Row()).(url := Some(url), category := Some(category), updatedAt := Some(now))
  {
    var l := link.SetCategory(category);
    l := l.SetUpdatedAt(now);
    l := l.SetUrl(url);
  }

  class LinksService {
    var links: map<int, Link>
    var nextId: int
    const userService: UserService

    /** Every stored link carries its own key as id, below the next
        auto-increment value, and has all its columns set; so distinct keys
        hold distinct objects. */
    ghost predicate Valid()
      reads this, links.Values
    {
      && nextId >= 1
      && (forall k | k in links :: links[k].id == Some(k) && 1 <= k < nextId)
      && (forall k | k in links :: Complete(links[k].Row()))
    }

    /** The table as rows. */
    ghost function Table(): map<int, LinkRow>
      reads this, links.Values
    {
      map k | k in links :: links[k].Row()
    }

    constructor(userService: UserService)
      ensures Valid() && links == map[] && nextId == 1
      ensures this.userService == userService
    {
      links, nextId := map[], 1;
      this.userService := userService;
    }

    /** `persist` and `flush` of a new link: the database gives it the
        next auto-increment id and stores it under that id. */
    method Persist(link: Link)
      requires Valid()
      requires link !in links.Values
      requires Complete(link.Row().(id := Some(0)))
      modifies this, link
      ensures Valid()
      ensures links == old(links)[old(nextId) := link] && nextId == old(nextId) + 1
      ensures link.Row() == old(link.Row()).(id := Some(old(nextId)))
      ensures Table() == old(Table())[old(nextId) := link.Row()]
    {
      ghost var before := Table();
      link.id := Some(nextId);
      links := links[nextId := link];
      nextId := nextId + 1;
      forall k | k in links ensures Table()[k] == before[old(nextId) := link.Row()][k] {
        if k != old(nextId) {
          assert links[k] != link;
        }
      }
      assert Table() == before[old(nextId) := link.Row()];
    }

    /** `create`: url, then category, are checked for emptiness; the code
        is drawn and the current user resolved; the new link, owned by that
        user with counter 0, is stored under the next id. No stored link
        changes: the method may modify only the service itself. */
    method Create(url: string, category: string, env: ServerEnv, now: Timestamp, draw: nat -> Draw)
        returns (r: Result<Link>)
      requires Valid()
      modifies this
      ensures Valid()
      ensures EmptyString(url) ==> r == Err(InvalidArgument("url"))
      ensures !EmptyString(url) && EmptyString(category) ==> r == Err(InvalidArgument("category"))
      ensures !EmptyString(url) && !EmptyString(category) && userService.token.None? ==>
        r == Err(InvalidToken)
      ensures r.Ok? <==> !EmptyString(url) && !EmptyString(category) && userService.token.Some?
      ensures r.Err? ==> links == old(links) && nextId == old(nextId)
      ensures r.Ok? ==> fresh(r.value) && nextId == old(nextId) + 1
      ensures r.Ok? ==> links == old(links)[old(nextId) := r.value]
      ensures r.Ok? ==>
        var code := Generated(draw, DefaultLength);
        r.value.Row() == LinkRow(Some(old(nextId)), Some(url), Some(code), Some(MakeShortUrl(env, code)),
                                 Some(category), 0, Some(now), Some(userService.token.value))
    {
      if EmptyString(url) {
        return Err(InvalidArgument("url"));
      } else if EmptyString(category) {
        return Err(InvalidArgument("category"));
      }
      var randomString := Make(draw);
      var currentUser := userService.GetCurrentUser();
      if currentUser.Err? {
        return Err(currentUser.error);
      }
      var link := NewLink(category, now, url, MakeShortUrl(env, randomString), randomString, currentUser.value);
      Persist(link);
      return Ok(link);
    }

    /** `update`: id, url and category are checked in that order; the link
        is looked up as `getById` does; only url, category and updatedAt
        change. */
    method Update(id: int, url: string, category: string, now: Timestamp) returns (r: Outcome)
      requires Valid()
      modifies links.Values
      ensures Valid()
      ensures EmptyInt(id) ==> r == Fail(InvalidArgument("id"))
      ensures !EmptyInt(id) && EmptyString(url) ==> r == Fail(InvalidArgument("url"))
      ensures !EmptyInt(id) && !EmptyString(url) && EmptyString(category) ==> r == Fail(InvalidArgument("category"))
      ensures ArgumentsGiven(id, url, category) && userService.token.None? ==> r == Fail(InvalidToken)
      ensures ArgumentsGiven(id, url, category) && userService.token.Some? ==>
        (r == Done <==> id in old(Table()) && OwnedBy(old(Table())[id], userService.token.value))
      ensures ArgumentsGiven(id, url, category) && userService.token.Some? && r.Fail? ==>
        r.error == LinkNotFound
      ensures r.Fail? ==> Table() == old(Table())
      ensures r == Done ==> id in old(Table())
      ensures r == Done ==>
        Table() == old(Table())[id := old(Table())[id].(url := Some(url), category := Some(category),
                                                        updatedAt := Some(now))]
    {
      if EmptyInt(id) {
        return Fail(InvalidArgument("id"));
      } else if EmptyString(url) {
        return Fail(InvalidArgument("url"));
      } else if EmptyString(category) {
        return Fail(InvalidArgument("category"));
      }
      var found := GetById(id);
      if found.Err? {
        return Fail(found.error);
      }
      var link := found.value;
      Distinct(id);
      Rewrite(link, url, category, now);
      OneRowChanged(id);
      return Done;
    }

    /** `delete`: the id is checked, the link looked up as `getById` does,
        and only that link is removed. */
    method Delete(id: int) returns (r: Outcome)
      requires Valid()
      modifies this
      ensures Valid() && nextId == old(nextId)
      ensures EmptyInt(id) ==> r == Fail(InvalidArgument("id"))
      ensures !EmptyInt(id) && userService.token.None? ==> r == Fail(InvalidToken)
      ensures !EmptyInt(id) && userService.token.Some? ==>
        (r == Done <==> id in old(Table()) && OwnedBy(old(Table())[id], userService.token.value))
      ensures !EmptyInt(id) && userService.token.Some? && r.Fail? ==> r.error == LinkNotFound
      ensures r.Fail? ==> links == old(links)
      ensures r == Done ==> links == old(links) - {id} && Table() == old(Table()) - {id}
    {
      if EmptyInt(id) {
        return Fail(InvalidArgument("id"));
      }
      var found := GetById(id);
      if found.Err? {
        return Fail(found.error);
      }
      links := links - {id};
      return Done;
    }

    /** `getById`: id 0 is an invalid argument; the lookup matches both
        the id and the current user, so another user's link is as missing
        as an absent one. */
    method GetById(id: int) returns (r: Result<Link>)
      ensures EmptyInt(id) ==> r == Err(InvalidArgument("id"))
      ensures !EmptyInt(id) && userService.token.None? ==> r == Err(InvalidToken)
      ensures !EmptyInt(id) && userService.token.Some? ==>
        (r.Ok? <==> id in links && OwnedBy(links[id].Row(), userService.token.value))
      ensures !EmptyInt(id) && userService.token.Some? && r.Err? ==> r.error == LinkNotFound
      ensures r.Ok? ==> id in links && r.value == links[id]
      ensures r.Ok? ==> Lookup(Table(), id, userService.token) == Ok(r.value.Row())
      ensures r.Err? ==> Lookup(Table(), id, userService.token) == Err(r.error)
    {
      if EmptyInt(id) {
        return Err(InvalidArgument("id"));
      }
      var currentUser := userService.GetCurrentUser();
      if currentUser.Err? {
        return Err(currentUser.error);
      }
      if id in links && OwnedBy(links[id].Row(), currentUser.value) {
        return Ok(links[id]);
      }
      return Err(LinkNotFound);
    }

    /** `getByCode`: an empty code is an invalid argument; any stored link
        with that code is returned, whoever owns it. */
    method GetByCode(code: string) returns (r: Result<Link>)
      ensures EmptyString(code) ==> r == Err(InvalidArgument("code"))
      ensures !EmptyString(code) ==> (r.Ok? <==> exists k | k in links :: links[k].code == Some(code))
      ensures !EmptyString(code) && r.Err? ==> r.error == LinkNotFound
      ensures r.Ok? ==> r.value in links.Values && r.value.code == Some(code)
    {
      if EmptyString(code) {
        return Err(InvalidArgument("code"));
      }
      if exists k | k in links :: links[k].code == Some(code) {
        var k :| k in links && links[k].code == Some(code);
        return Ok(links[k]);
      }
      return Err(LinkNotFound);
    }

    /** `visit`: one more visit and a new update time, with no check of
        who owns the link. */
    method Visit(link: Link, now: Timestamp)
      requires Valid() && Stored(link)
      modifies link
      ensures Valid()
      ensures link.Row() == old(link.Row()).(counter := old(link.counter) + 1, updatedAt := Some(now))
      ensures Stored(link)
      ensures Table() == old(Table())[link.id.value := link.Row()]
    {
      ghost var key := link.id.value;
      Distinct(key);
      var l := link.IncCounter();
      l := l.SetUpdatedAt(now);
      OneRowChanged(key);
    }

    /** The link is the one stored under its id. */
    predicate Stored(link: Link)
      reads this, link
    {
      link.id.Some? && link.id.value in links && links[link.id.value] == link
    }

    /** When only the link under `key` has changed, the table differs in
        that row alone. */
    twostate lemma OneRowChanged(key: int)
      requires old(Valid()) && key in old(links) && links == old(links)
      requires forall k | k in links && k != key :: unchanged(links[k])
      ensures Table() == old(Table())[key := links[key].Row()]
    {
      forall k | k in links ensures Table()[k] == old(Table())[key := links[key].Row()][k] {
        if k != key {
          assert links[k].Row() == old(links[k].Row());
        }
      }
    }

    /** Distinct keys hold distinct objects. */
    lemma Distinct(key: int)
      requires Valid() && key in links
      ensures forall k | k in links && k != key :: links[k] != links[key]
    {
    }

    /** `getAll`: exactly the current user's links. */
    method GetAll() returns (r: Result<set<Link>>)
      ensures userService.token.None? ==> r == Err(InvalidToken)
      ensures userService.token.Some? ==> r.Ok?
      ensures r.Ok? ==>
        forall l :: l in r.value <==> l in links.Values && OwnedBy(l.Row(), userService.token.value)
    {
      var currentUser := userService.GetCurrentUser();
      if currentUser.Err? {
        return Err(currentUser.error);
      }
      var owner := currentUser.value;
      return Ok(set l | l in links.Values && OwnedBy(l.Row(), owner));
    }

    /** `getByCategory`: an empty category is an invalid argument, checked
        before the token; otherwise the current user's links in that
        category. */
    method GetByCategory(category: string) returns (r: Result<set<Link>>)
      ensures EmptyString(category) ==> r == Err(InvalidArgument("category"))
      ensures !EmptyString(category) && userService.token.None? ==> r == Err(InvalidToken)
      ensures !EmptyString(category) && userService.token.Some? ==> r.Ok?
      ensures r.Ok? ==> userService.token.Some?
      ensures r.Ok? ==> forall l :: l in r.value <==>
          l in links.Values && OwnedBy(l.Row(), userService.token.value) && l.category == Some(category)
    {
      if EmptyString(category) {
        return Err(InvalidArgument("category"));
      }
      var currentUser := userService.GetCurrentUser();
      if currentUser.Err? {
        return Err(currentUser.error);
      }
      var owner := currentUser.value;
      return Ok(set l | l in links.Values && OwnedBy(l.Row(), owner) && l.category == Some(category));
    }
  }

  /** What `getById` finds in a table of rows for the current token: id 0
      is an invalid argument, a missing token an invalid token, and the row
      must carry both the id and the current user's id. */
  function Lookup(table: map<int, LinkRow>, id: int, token: Option<User>): Result<LinkRow>
  {
    if EmptyInt(id) then Err(InvalidArgument("id"))
    else if token.None? then Err(InvalidToken)
    else if id in table && OwnedBy(table[id], token.value) then Ok(table[id])
    else Err(LinkNotFound)
  }

  /** A link is found for one owner id only. */
  lemma LookupSingleOwner(table: map<int, LinkRow>, id: int, u: User, v: User)
    requires Lookup(table, id, Some(u)).Ok? && Lookup(table, id, Some(v)).Ok?
    ensures u.id == v.id
  {
  }

  /** Another user's link looks exactly like an absent one. */
  lemma ForeignLinkLooksMissing(table: map<int, LinkRow>, id: int, u: User)
    requires id in table && !OwnedBy(table[id], u)
    ensures Lookup(table, id, Some(u)) == Lookup(table - {id}, id, Some(u))
  {
  }

  /** Ids start at 1, so a negative id passes the emptiness check and is
      then not found. */
  lemma NegativeIdNotFound(table: map<int, LinkRow>, id: int, u: User)
    requires forall k | k in table :: k >= 1
    requires id < 0
    ensures Lookup(table, id, Some(u)) == Err(LinkNotFound)
  {
  }

  /** A removed id is never found again. */
  lemma LookupAfterRemove(table: map<int, LinkRow>, id: int, token: Option<User>)
    ensures !Lookup(table - {id}, id, token).Ok?
  {
  }

  /** Changing one row leaves every other id's lookup as it was, and the
      changed row is found as long as its owner stays. */
  lemma LookupAfterChange(table: map<int, LinkRow>, key: int, row: LinkRow, id: int, token: Option<User>)
    requires key in table && row.user == table[key].user
    ensures id != key ==> Lookup(table[key := row], id, token) == Lookup(table, id, token)
    ensures Lookup(table, key, token).Ok? ==> Lookup(table[key := row], key, token) == Ok(row)
  {
  }

  /** The service tests' sequence for a signed-in user: a new link can be
      updated, is then found by id with the new url and category and by its
      code, and once deleted is no longer found by id. */
  method CreateUpdateDelete(service: LinksService, env: ServerEnv, now: Timestamp, later: Timestamp, draw: nat -> Draw)
      returns (created: Result<Link>, updated: Outcome, found: Result<Link>, byCode: Result<Link>,
               deleted: Outcome, gone: Result<Link>)
    requires service.Valid() && service.userService.token.Some?
    modifies service, service.links.Values
    ensures service.Valid()
    ensures created.Ok? && updated == Done && deleted == Done
    ensures found.Ok? && found.value == created.value
    ensures found.value.url == Some("https://www.youtube.com") && found.value.category == Some("video")
    ensures byCode.Ok? && byCode.value.code == created.value.code
    ensures gone == Err(LinkNotFound)
  {
    created := service.Create("http://rambler.ru", "search", env, now, draw);
    var link := created.value;
    updated, found, byCode := UpdateThenFind(service, link, "https://www.youtube.com", "video", later);
    deleted, gone := DeleteThenFind(service, link.id.value);
  }

  /** Updating one of the current user's stored links: the update succeeds,
      `getById` then returns that link with the new url and category, and
      `getByCode` finds a link with its code, when that code is not empty
      (a generated one never is). The link `getByCode` returns
      need not be this one, as codes are not unique. */
  method UpdateThenFind(service: LinksService, link: Link, url: string, category: string, now: Timestamp)
      returns (updated: Outcome, found: Result<Link>, byCode: Result<Link>)
    requires service.Valid() && service.Stored(link)
    requires service.userService.token.Some? && OwnedBy(link.Row(), service.userService.token.value)
    requires !EmptyString(url) && !EmptyString(category)
    requires link.code.Some? && !EmptyString(link.code.value)
    modifies service.links.Values
    ensures service.Valid() && service.Stored(link) && service.links == old(service.links)
    ensures OwnedBy(link.Row(), service.userService.token.value)
    ensures updated == Done
    ensures found == Ok(link) && link.url == Some(url) && link.category == Some(category)
    ensures byCode.Ok? && byCode.value.code == link.code
  {
    var id := link.id.value;
    assert id in service.Table() && service.Table()[id] == link.Row();
    updated := service.Update(id, url, category, now);
    assert service.Table()[id] == link.Row();
    found := service.GetById(id);
    assert service.links[id].code == Some(link.code.value);
    byCode := service.GetByCode(link.code.value);
  }

  /** Deleting one of the current user's links succeeds, and `getById`
      then reports it as not found. */
  method DeleteThenFind(service: LinksService, id: int) returns (deleted: Outcome, gone: Result<Link>)
    requires service.Valid() && !EmptyInt(id) && service.userService.token.Some?
    requires id in service.Table() && OwnedBy(service.Table()[id], service.userService.token.value)
    modifies service
    ensures service.Valid()
    ensures deleted == Done && gone == Err(LinkNotFound)
  {
    deleted := service.Delete(id);
    gone := service.GetById(id);
  }

  /** The arguments `update` demands: a non-zero id, a url and a category. */
  predicate ArgumentsGiven(id: int, url: string, category: string)
  {
    !EmptyInt(id) && !EmptyString(url) && !EmptyString(category)
  }
}
