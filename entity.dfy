/** The two Doctrine entities: the User record and the Link object, whose
    setters change its fields in place and return the object itself so
    that calls can be chained. */
module Entity {
  import opened Common

  /** A `DateTime` instant; the clock itself is outside the model. */
  type Timestamp = int

  /** A stored user: its database id, unique username and password hash. */
  datatype User = User(id: int, username: string, password: string)

  /** A snapshot of every field of a Link; a field Doctrine has not set yet
      (PHP null) is None. */
  datatype LinkRow = LinkRow(
    id: Option<int>,
    url: Option<string>,
    code: Option<string>,
    shortUrl: Option<string>,
    category: Option<string>,
    counter: nat,
    updatedAt: Option<Timestamp>,
    user: Option<User>)

  /** The row of a freshly constructed Link: only the counter is set. */
  const NewRow: LinkRow := LinkRow(None, None, None, None, None, 0, None, None)

  /** The values `jsonSerialize` puts in its array. `updatedAt` is the
      DateTime object itself, not a formatted string. */
  datatype JsonValue = JNull | JInt(n: int) | JString(s: string) | JTime(t: Timestamp)

  /** The keys of `jsonSerialize`'s array. */
  const JsonKeys: set<string> :=
    {"id", "url", "code", "shortUrl", "category", "counter", "updatedAt", "userId"}

  function JsonOfString(o: Option<string>): JsonValue
  {
    match o
    case None => JNull
    case Some(s) => JString(s)
  }

  class Link {
    var id: Option<int>
    var url: Option<string>
    var code: Option<string>
    var shortUrl: Option<string>
    var category: Option<string>
    var counter: nat
    var updatedAt: Option<Timestamp>
    var user: Option<User>

    /** All fields at once. */
    function Row(): LinkRow
      reads this
    {
      LinkRow(id, url, code, shortUrl, category, counter, updatedAt, user)
    }

    /** `new Link()`: the counter starts at 0 and nothing else is set. */
    constructor()
      ensures Row() == NewRow
    {
      id, url, code, shortUrl, category := None, None, None, None, None;
      counter := 0;
      updatedAt, user := None, None;
    }

    method SetUrl(url: string) returns (self: Link)
      modifies this
      ensures self == this
      ensures Row() == old(Row()).(url := Some(url))
    {
      this.url := Some(url);
      return this;
    }

    method SetShortUrl(shortUrl: string) returns (self: Link)
      modifies this
      ensures self == this
      ensures Row() == old(Row()).(shortUrl := Some(shortUrl))
    {
      this.shortUrl := Some(shortUrl);
      return this;
    }

    method SetCode(code: string) returns (self: Link)
      modifies this
      ensures self == this
      ensures Row() == old(Row()).(code := Some(code))
    {
      this.code := Some(code);
      return this;
    }

    method SetCategory(category: string) returns (self: Link)
      modifies this
      ensures self == this
      ensures Row() == old(Row()).(category := Some(category))
    {
      this.category := Some(category);
      return this;
    }

    method SetUpdatedAt(updatedAt: Timestamp) returns (self: Link)
      modifies this
      ensures self == this
      ensures Row() == old(Row()).(updatedAt := Some(updatedAt))
    {
      this.updatedAt := Some(updatedAt);
      return this;
    }

    method SetUser(user: User) returns (self: Link)
      modifies this
      ensures self == this
      ensures Row() == old(Row()).(user := Some(user))
    {
      this.user := Some(user);
      return this;
    }

    /** `incCounter`: one more visit, nothing else changes. */
    method IncCounter() returns (self: Link)
      modifies this
      ensures self == this
      ensures counter == old(counter) + 1
      ensures Row() == old(Row()).(counter := old(counter) + 1)
    {
      counter := counter + 1;
      return this;
    }

    /** `jsonSerialize`: it dereferences the owner, so it needs one (PHP
        stops with an error on a Link without a user). */
    function JsonSerialize(): (j: map<string, JsonValue>)
      reads this
      requires user.Some?
      ensures j.Keys == JsonKeys
      ensures j["userId"] == JInt(user.value.id)
      ensures j["counter"] == JInt(counter)
      ensures JsonDecodesTo(j, Row())
    {
      map[
        "id" := if id.Some? then JInt(id.value) else JNull,
        "url" := JsonOfString(url),
        "code" := JsonOfString(code),
        "shortUrl" := JsonOfString(shortUrl),
        "category" := JsonOfString(category),
        "counter" := JInt(counter),
        "updatedAt" := if updatedAt.Some? then JTime(updatedAt.value) else JNull,
        "userId" := JInt(user.value.id)]
    }
  }

  /** A client reading the array back recovers every field of the row and
      the owner's id. */
  predicate JsonDecodesTo(j: map<string, JsonValue>, row: LinkRow)
    requires row.user.Some?
  {
    && JsonKeys <= j.Keys
    && (row.id.None? <==> j["id"] == JNull)
    && (row.id.Some? ==> j["id"] == JInt(row.id.value))
    && OptStringIs(j["url"], row.url)
    && OptStringIs(j["code"], row.code)
    && OptStringIs(j["shortUrl"], row.shortUrl)
    && OptStringIs(j["category"], row.category)
    && j["counter"] == JInt(row.counter)
    && (row.updatedAt.None? <==> j["updatedAt"] == JNull)
    && (row.updatedAt.Some? ==> j["updatedAt"] == JTime(row.updatedAt.value))
    && j["userId"] == JInt(row.user.value.id)
  }

  predicate OptStringIs(v: JsonValue, o: Option<string>)
  {
    if o.None? then v == JNull else v == JString(o.value)
  }

  /** Two links serialise alike exactly when they agree on every field and
      their owners share an id. */
  lemma JsonSerializeInjective(a: Link, b: Link)
    requires a.user.Some? && b.user.Some?
    ensures a.JsonSerialize() == b.JsonSerialize() <==>
      a.Row().(user := None) == b.Row().(user := None) && a.user.value.id == b.user.value.id
  {
    var ja, jb := a.JsonSerialize(), b.JsonSerialize();
    if ja == jb {
      assert ja["url"] == jb["url"] && ja["code"] == jb["code"];
      assert ja["shortUrl"] == jb["shortUrl"] && ja["category"] == jb["category"];
      assert ja["id"] == jb["id"] && ja["updatedAt"] == jb["updatedAt"];
    }
  }
}
