/**
 * The PhpBrowser module object (PhpBrowser.php lines 55-172): its config,
 * the Guzzle client built from it, the connector that carries the base url,
 * the crawler, and the session protocol that saves and restores those three
 * references.
 */
module Browser {
  import opened Wrappers
  import opened PhpArrays
  import opened GuzzleOptions
  import opened Pcre
  import opened Subdomain

  /** \GuzzleHttp\Client: only the defaults it was built with. */
  class GuzzleClient {
    const defaults: seq<Entry>

    constructor(defaults: seq<Entry>)
      ensures this.defaults == defaults
    {
      this.defaults := defaults;
    }
  }

  /** The crawler over the last page seen; its contents are not modelled. */
  class Crawler {
  }

  /** Codeception\Lib\Connector\Guzzle: the two settings the module makes on it. */
  class Connector {
    var http: GuzzleClient?
    var baseUri: string

    constructor()
      ensures http == null && baseUri == ""
    {
      http := null;
      baseUri := "";
    }

    method SetClient(client: GuzzleClient?)
      modifies this
      ensures http == client && baseUri == old(baseUri)
    {
      http := client;
    }

    method SetBaseUri(uri: string)
      modifies this
      ensures baseUri == uri && http == old(http)
    {
      baseUri := uri;
    }
  }

  /* ---------------------------------------------------------------------- */
  /* Session data                                                            */
  /* ---------------------------------------------------------------------- */

  /** The three references a session consists of. */
  datatype Session = Session(client: Connector?, guzzle: GuzzleClient?, crawler: Crawler?)

  /** One key => value pair of a session bundle: the property it names and
      the reference it holds. */
  datatype SessionEntry =
    | ClientEntry(client: Connector?)
    | GuzzleEntry(guzzle: GuzzleClient?)
    | CrawlerEntry(crawler: Crawler?)

  /** The bundle _backupSessionData returns: client, guzzle, crawler. */
  function Backup(s: Session): seq<SessionEntry> {
    [ClientEntry(s.client), GuzzleEntry(s.guzzle), CrawlerEntry(s.crawler)]
  }

  /** $this->$key = $val for one entry. */
  function Assign(s: Session, e: SessionEntry): Session {
    match e
    case ClientEntry(c) => s.(client := c)
    case GuzzleEntry(g) => s.(guzzle := g)
    case CrawlerEntry(c) => s.(crawler := c)
  }

  /** The session after assigning the entries of data in order. */
  function Loaded(s: Session, data: seq<SessionEntry>): Session
    decreases |data|
  {
    if data == [] then s else Assign(Loaded(s, data[..|data| - 1]), data[|data| - 1])
  }

  /** Loading a backup restores the session it was taken from, whatever the
      session before. */
  lemma LoadBackup(s: Session, t: Session)
    ensures Loaded(s, Backup(t)) == t
  {
    var b := Backup(t);
    assert b[..2][..1] == [ClientEntry(t.client)] && b[..2] == [ClientEntry(t.client), GuzzleEntry(t.guzzle)];
    assert Loaded(s, b[..2][..1]) == s.(client := t.client);
  }

  /** The last reference a bundle gives the client, if any. */
  function LastClient(data: seq<SessionEntry>): Option<Connector?> {
    if data == [] then None
    else if data[|data| - 1].ClientEntry? then Some(data[|data| - 1].client)
    else LastClient(data[..|data| - 1])
  }

  function LastGuzzle(data: seq<SessionEntry>): Option<GuzzleClient?> {
    if data == [] then None
    else if data[|data| - 1].GuzzleEntry? then Some(data[|data| - 1].guzzle)
    else LastGuzzle(data[..|data| - 1])
  }

  function LastCrawler(data: seq<SessionEntry>): Option<Crawler?> {
    if data == [] then None
    else if data[|data| - 1].CrawlerEntry? then Some(data[|data| - 1].crawler)
    else LastCrawler(data[..|data| - 1])
  }

  /** Loading overwrites exactly the properties the bundle names, each with
      the last value given for it; the others keep their references. */
  lemma {:induction false} LoadedFields(s: Session, data: seq<SessionEntry>)
    ensures Loaded(s, data).client == match LastClient(data) case Some(c) => c case None => s.client
    ensures Loaded(s, data).guzzle == match LastGuzzle(data) case Some(g) => g case None => s.guzzle
    ensures Loaded(s, data).crawler == match LastCrawler(data) case Some(c) => c case None => s.crawler
    decreases |data|
  {
    if data != [] {
      LoadedFields(s, data[..|data| - 1]);
    }
  }

  /** A property the bundle does not name keeps its reference. */
  lemma {:induction false} LoadedUntouched(s: Session, data: seq<SessionEntry>)
    ensures (forall i :: 0 <= i < |data| ==> !data[i].ClientEntry?) ==> Loaded(s, data).client == s.client
    ensures (forall i :: 0 <= i < |data| ==> !data[i].GuzzleEntry?) ==> Loaded(s, data).guzzle == s.guzzle
    ensures (forall i :: 0 <= i < |data| ==> !data[i].CrawlerEntry?) ==> Loaded(s, data).crawler == s.crawler
    decreases |data|
  {
    if data != [] {
      var init := data[..|data| - 1];
      assert forall i :: 0 <= i < |init| ==> init[i] == data[i];
      LoadedUntouched(s, init);
    }
  }

  /** Loading two bundles one after the other is loading their concatenation. */
  lemma {:induction false} LoadedAppend(s: Session, a: seq<SessionEntry>, b: seq<SessionEntry>)
    ensures Loaded(s, a + b) == Loaded(Loaded(s, a), b)
    decreases |b|
  {
    if b == [] {
      assert a + b == a;
    } else {
      assert (a + b)[..|a + b| - 1] == a + b[..|b| - 1];
      LoadedAppend(s, a, b[..|b| - 1]);
    }
  }

  /* ---------------------------------------------------------------------- */
  /* The module                                                              */
  /* ---------------------------------------------------------------------- */

  class PhpBrowser {
    var config: seq<Entry>
    var client: Connector?
    var guzzle: GuzzleClient?
    var crawler: Crawler?

    /** The config is a PHP array holding the required url as a string. */
    predicate Valid()
      reads this
    {
      UniqueKeys(config) && Get(config, StrKey("url")).Some? && Get(config, StrKey("url")).value.Str?
    }

    /** $this->config['url']. */
    function Url(): string
      reads this
      requires Valid()
    {
      Get(config, StrKey("url")).value.s
    }

    function State(): Session
      reads this
    {
      Session(client, guzzle, crawler)
    }

    /** A module holding a validated config and no client yet. */
    constructor(config: seq<Entry>)
      requires UniqueKeys(config) && Get(config, StrKey("url")).Some? && Get(config, StrKey("url")).value.Str?
      ensures this.config == config && Valid()
      ensures client == null && guzzle == null && crawler == null
    {
      this.config := config;
      client := null;
      guzzle := null;
      crawler := null;
    }

    /** _initialize, lines 71-80: a new Guzzle client with the defaults
        built from the config. */
    method Initialize(constants: map<string, Key>)
      modifies this
      ensures fresh(guzzle) && guzzle.defaults == GuzzleDefaults(config, constants)
      ensures config == old(config) && client == old(client) && crawler == old(crawler)
    {
      var defaults := BuildDefaults(config, constants);
      guzzle := new GuzzleClient(defaults);
    }

    /** _getUrl, lines 86-89. */
    method GetUrl() returns (url: string)
      requires Valid()
      ensures url == Url()
    {
      url := Get(config, StrKey("url")).value.s;
    }

    /** _initializeSession, lines 146-151: a new connector on the current
        Guzzle client, with the config url as its base. */
    method InitializeSession()
      requires Valid()
      modifies this
      ensures config == old(config) && guzzle == old(guzzle) && crawler == old(crawler)
      ensures Valid() && fresh(client) && client.http == guzzle && client.baseUri == Url()
    {
      client := new Connector();
      client.SetClient(guzzle);
      var url := GetUrl();
      client.SetBaseUri(url);
    }

    /** _before, lines 82-84. */
    method Before()
      requires Valid()
      modifies this
      ensures config == old(config) && guzzle == old(guzzle) && crawler == old(crawler)
      ensures Valid() && fresh(client) && client.http == guzzle && client.baseUri == Url()
    {
      InitializeSession();
    }

    /** _reconfigure(['url' => url]) followed by onReconfigure (lines 101,
        104-107): the url is replaced and the session starts over on it. */
    method Reconfigure(url: string)
      requires Valid()
      modifies this
      ensures config == Put(old(config), StrKey("url"), Str(url)) && Valid() && Url() == url
      ensures forall k :: k != StrKey("url") ==> Get(config, k) == Get(old(config), k)
      ensures fresh(client) && client.http == guzzle && client.baseUri == url
      ensures guzzle == old(guzzle) && crawler == old(crawler)
    {
      PutUnique(config, StrKey("url"), Str(url));
      forall k {
        PutGet(config, StrKey("url"), Str(url), k);
      }
      config := Put(config, StrKey("url"), Str(url));
      InitializeSession();
    }

    /** amOnSubdomain, lines 96-102: both passes over the config url, then
        the reconfiguration. Pass 2 is the intended one (InsertPass); it is
        the url line 101 receives whenever the subdomain does not start with
        a digit. */
    method AmOnSubdomain(subdomain: string)
      requires Valid()
      modifies this
      ensures Valid() && Url() == Rewrite(old(Url()), subdomain)
      ensures '$' !in subdomain && '\\' !in subdomain && !(|subdomain| > 0 && IsDigit(subdomain[0])) ==>
        Url() == RewriteAsWritten(old(Url()), subdomain)
      ensures forall k :: k != StrKey("url") ==> Get(config, k) == Get(old(config), k)
      ensures fresh(client) && client.http == guzzle && client.baseUri == Url()
      ensures guzzle == old(guzzle) && crawler == old(crawler)
    {
      var url := Get(config, StrKey("url")).value.s;
      if '$' !in subdomain && '\\' !in subdomain && !(|subdomain| > 0 && IsDigit(subdomain[0])) {
        RewriteAsWrittenAgrees(url, subdomain);
      }
      url := StripPass(url);
      url := InsertPass(url, subdomain);
      Reconfigure(url);
    }

    /** _backupSessionData, lines 153-160. */
    method BackupSessionData() returns (data: seq<SessionEntry>)
      ensures data == Backup(State())
    {
      data := [ClientEntry(client), GuzzleEntry(guzzle), CrawlerEntry(crawler)];
    }

    /** _loadSessionData, lines 162-167: each entry assigned in turn. */
    method LoadSessionData(data: seq<SessionEntry>)
      modifies this
      ensures State() == Loaded(old(State()), data) && config == old(config)
    {
      for i := 0 to |data|
        invariant State() == Loaded(old(State()), data[..i]) && config == old(config)
      {
        assert data[..i + 1][..i] == data[..i];
        match data[i]
        case ClientEntry(c) => client := c;
        case GuzzleEntry(g) => guzzle := g;
        case CrawlerEntry(c) => crawler := c;
      }
      assert data[..|data|] == data;
    }

    /** _closeSession, lines 169-172: the bundle is dropped; the module is
        left as it is. */
    method CloseSession(data: seq<SessionEntry>)
      ensures State() == old(State()) && config == old(config)
    {
    }
  }
}
