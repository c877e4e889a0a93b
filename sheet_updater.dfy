/**
 * The pure helpers of the Google Sheets side: the authorisation scope URLs
 * (`GCPAuth.get_scopes`), the JSON-ready dict of a credentials object
 * (`GCPAuth.dictify`), and the row an older `LinkedInJob` record adds to
 * the sheet (`toGoogleSheetsRow`). Loading credentials and calling the
 * Sheets API are not part of this model.
 */
module GoogleSheetUpdater {
  import opened Wrappers
  import opened Text
  import opened Dates
  import LinkedInJob

  // ---------------------------------------------------------------------
  // GCPAuth.get_scopes
  // ---------------------------------------------------------------------

  /** The base URL of every Google authorisation scope. */
  const SCOPE_URL := "https://www.googleapis.com/auth/"

  /** The scopes a `GCPAuth` asks for unless told otherwise. */
  const DEFAULT_SCOPES: seq<string> := ["spreadsheets", "drive"]

  /** `get_scopes(*names)`: one scope URL per name, in order. */
  function GetScopes(names: seq<string>): (urls: seq<string>)
    ensures |urls| == |names|
    ensures forall i :: 0 <= i < |names| ==> |SCOPE_URL| <= |urls[i]| && urls[i][..|SCOPE_URL|] == SCOPE_URL
  {
    if |names| == 0 then []
    else
      var url := SCOPE_URL + names[0];
      assert url[..|SCOPE_URL|] == SCOPE_URL;
      [url] + GetScopes(names[1..])
  }

  /** The scope name inside a scope URL: the URL without the base. */
  function ScopeName(url: string): string {
    if |SCOPE_URL| <= |url| && url[..|SCOPE_URL|] == SCOPE_URL then url[|SCOPE_URL|..] else url
  }

  /** Each scope URL gives its name back: `get_scopes` loses nothing and keeps the order. */
  lemma {:induction false} GetScopesRoundTrip(names: seq<string>)
    ensures forall i :: 0 <= i < |names| ==> ScopeName(GetScopes(names)[i]) == names[i]
    decreases |names|
  {
    if |names| > 0 {
      GetScopesRoundTrip(names[1..]);
      var u := SCOPE_URL + names[0];
      assert u[..|SCOPE_URL|] == SCOPE_URL && u[|SCOPE_URL|..] == names[0];
      forall i | 1 <= i < |names| ensures ScopeName(GetScopes(names)[i]) == names[i] {
        assert GetScopes(names)[i] == GetScopes(names[1..])[i - 1];
      }
    }
  }

  /** The default scopes are the Sheets scope and the Drive scope. */
  lemma DefaultScopeUrls()
    ensures GetScopes(DEFAULT_SCOPES) == [SCOPE_URL + "spreadsheets", SCOPE_URL + "drive"]
  {
    var rest: seq<string> := ["drive"];
    assert DEFAULT_SCOPES[1..] == rest && rest[1..] == [];
    assert GetScopes(rest) == [SCOPE_URL + "drive"];
  }

  /** A `GCPAuth`: the scope URLs it was made with. */
  class GCPAuth {
    var debugging: bool
    var scopes: seq<string>

    /** `GCPAuth(scopes, debugging)`: the scope names become scope URLs. */
    constructor (scopeNames: seq<string>, debugging: bool)
      ensures this.debugging == debugging && scopes == GetScopes(scopeNames)
    {
      this.debugging := debugging;
      scopes := GetScopes(scopeNames);
    }
  }

  // ---------------------------------------------------------------------
  // GCPAuth.dictify
  // ---------------------------------------------------------------------

  /** The credentials attributes that are saved. */
  const KEYS: set<string> := {"token", "refresh_token", "token_uri", "rapt_token", "client_id",
                              "account", "client_secret", "scopes", "expiry", "universe_domain"}

  /** A Python `datetime`, which is always a valid moment. */
  type PyDateTime = t: DateTime | ValidDateTime(t) witness DateTime(Date(1, 1, 1), 0, 0, 0, 0)

  /** The values a credentials attribute holds, as far as `dictify` tells them apart. */
  datatype CredValue = PyNone | Str(text: string) | StrList(items: seq<string>) | Time(moment: PyDateTime)

  /** A credentials object: its attributes by name; an attribute it does not have is not a key. */
  datatype Creds = Creds(attrs: map<string, CredValue>)

  /** `getattr(creds, key, getattr(creds, "_" + key, None))`. */
  function Attr(creds: Creds, key: string): (v: CredValue)
    ensures key in creds.attrs ==> v == creds.attrs[key]
    ensures key !in creds.attrs && "_" + key in creds.attrs ==> v == creds.attrs["_" + key]
    ensures key !in creds.attrs && "_" + key !in creds.attrs ==> v == PyNone
  {
    if key in creds.attrs then creds.attrs[key]
    else if "_" + key in creds.attrs then creds.attrs["_" + key]
    else PyNone
  }

  /** What the loop of `dictify` collects from the keys `done`: each key not stripped whose value is not `None`. */
  function Collected(creds: Creds, strip: set<string>, done: set<string>): (m: map<string, CredValue>)
    ensures forall k :: k in m <==> k in done && k !in strip && Attr(creds, k) != PyNone
    ensures forall k :: k in m ==> m[k] == Attr(creds, k)
  {
    map k | k in done && k !in strip && Attr(creds, k) != PyNone :: Attr(creds, k)
  }

  /** One more key looked at: it is added when it is not stripped and its value is not `None`. */
  lemma CollectedStep(creds: Creds, strip: set<string>, done: set<string>, key: string)
    ensures Collected(creds, strip, done + {key}) ==
      if key !in strip && Attr(creds, key) != PyNone then Collected(creds, strip, done)[key := Attr(creds, key)]
      else Collected(creds, strip, done)
  {
  }

  /**
   * `dictify(creds, strip)`: the collected entries, with "expiry", when it
   * is there, replaced by the ISO form of `creds.expiry` and "Z". That last
   * step raises `AttributeError` when `creds.expiry` is no datetime, which
   * happens when the value came from `_expiry`.
   */
  function DictifyResult(creds: Creds, strip: set<string>): (r: Result<map<string, CredValue>>)
    ensures r.Err? <==>
      "expiry" !in strip && Attr(creds, "expiry") != PyNone && !("expiry" in creds.attrs && creds.attrs["expiry"].Time?)
    ensures r.Err? ==> r.error == AttributeError
    ensures r.Ok? ==> r.value.Keys <= KEYS && forall k :: k in r.value ==> k !in strip && r.value[k] != PyNone
    ensures r.Ok? ==> forall k :: k in KEYS && k !in strip && Attr(creds, k) != PyNone ==> k in r.value
    ensures r.Ok? ==> forall k :: k in r.value && k != "expiry" ==> r.value[k] == Attr(creds, k)
    ensures r.Ok? && "expiry" in r.value ==>
      "expiry" in creds.attrs && creds.attrs["expiry"].Time? &&
      r.value["expiry"] == Str(DateTimeIso(creds.attrs["expiry"].moment) + "Z")
  {
    var c := Collected(creds, strip, KEYS);
    assert "expiry" in KEYS;
    if "expiry" in c then
      if "expiry" in creds.attrs && creds.attrs["expiry"].Time? then
        Ok(c["expiry" := Str(DateTimeIso(creds.attrs["expiry"].moment) + "Z")])
      else Err(AttributeError)
    else Ok(c)
  }

  /** A key is saved from its own attribute whenever that attribute exists, even when it is `None` and `_key` is set. */
  lemma DictifyPrefersPlainAttribute(creds: Creds, strip: set<string>, key: string)
    requires key in creds.attrs && key != "expiry"
    requires DictifyResult(creds, strip).Ok?
    ensures creds.attrs[key] == PyNone ==> key !in DictifyResult(creds, strip).value
    ensures key in DictifyResult(creds, strip).value ==> DictifyResult(creds, strip).value[key] == creds.attrs[key]
  {
  }

  /** `_key` is used only when the credentials have no attribute `key`. */
  lemma DictifyFallsBackToPrivate(creds: Creds, strip: set<string>, key: string)
    requires key in KEYS && key !in strip && key != "expiry"
    requires key !in creds.attrs && "_" + key in creds.attrs && creds.attrs["_" + key] != PyNone
    requires DictifyResult(creds, strip).Ok?
    ensures key in DictifyResult(creds, strip).value
    ensures DictifyResult(creds, strip).value[key] == creds.attrs["_" + key]
  {
  }

  /** Stripping a key drops it and changes nothing else. */
  lemma DictifyStrip(creds: Creds, strip: set<string>, key: string)
    requires key != "expiry" && DictifyResult(creds, strip).Ok?
    ensures DictifyResult(creds, strip + {key}).Ok?
    ensures DictifyResult(creds, strip + {key}).value == DictifyResult(creds, strip).value - {key}
  {
    var c := Collected(creds, strip, KEYS);
    CollectedStrip(creds, strip, KEYS, key);
    if "expiry" in c {
      var e := Str(DateTimeIso(creds.attrs["expiry"].moment) + "Z");
      assert (c - {key})["expiry" := e] == c["expiry" := e] - {key};
    }
  }

  /** Stripping one more key drops it from what the loop collects. */
  lemma CollectedStrip(creds: Creds, strip: set<string>, done: set<string>, key: string)
    ensures Collected(creds, strip + {key}, done) == Collected(creds, strip, done) - {key}
  {
  }

  /** `dictify`: the loop over `KEYS` collects the entries, then "expiry" is flattened. */
  method Dictify(creds: Creds, strip: set<string>) returns (r: Result<map<string, CredValue>>)
    ensures r == DictifyResult(creds, strip)
  {
    var jsonified: map<string, CredValue> := map[];
    var todo := KEYS;
    while todo != {}
      invariant todo <= KEYS
      invariant jsonified == Collected(creds, strip, KEYS - todo)
      decreases todo
    {
      var key :| key in todo;
      CollectedStep(creds, strip, KEYS - todo, key);
      if key !in strip {
        var value := Attr(creds, key);
        if value != PyNone {
          jsonified := jsonified[key := value];
        }
      }
      assert KEYS - (todo - {key}) == (KEYS - todo) + {key};
      todo := todo - {key};
    }
    assert KEYS - todo == KEYS;
    if "expiry" in jsonified {
      if !("expiry" in creds.attrs && creds.attrs["expiry"].Time?) {
        return Err(AttributeError);
      }
      jsonified := jsonified["expiry" := Str(DateTimeIso(creds.attrs["expiry"].moment) + "Z")];
    }
    r := Ok(jsonified);
  }

  // ---------------------------------------------------------------------
  // LinkedInJob.toGoogleSheetsRow (the record kept beside the updater)
  // ---------------------------------------------------------------------

  /** The job record the updater's own `LinkedInJob` class keeps. */
  datatype SheetJob = SheetJob(company: string, contact: string, title: string, src: string, url: string)

  /** `LinkedInJob(company, title, url, src="LinkedIn", contact="N/A")`. */
  function NewSheetJob(company: string, title: string, url: string): (job: SheetJob)
    ensures job.company == company && job.title == title && job.url == url
    ensures job.src == "LinkedIn" && job.contact == "N/A"
  {
    SheetJob(company, "N/A", title, "LinkedIn", url)
  }

  /**
   * `toGoogleSheetsRow`: the sheet's date formula, the company, a
   * hyperlink to the posting titled with the job title, the status
   * formula, the source and the contact.
   */
  function ToGoogleSheetsRow(job: SheetJob): (row: seq<string>)
    ensures |row| == 6
    ensures row[0] == "=TODAY()" && row[1] == job.company
    ensures row[2] == LinkedInJob.Hyperlink(job.url, job.title)
    ensures row[3] == LinkedInJob.STATUS_FORMULA && row[4] == job.src && row[5] == job.contact
  {
    ["=TODAY()", job.company, LinkedInJob.Hyperlink(job.url, job.title), LinkedInJob.STATUS_FORMULA, job.src, job.contact]
  }

  /** Two records without '"' in their URL or title give the same row only when they are the same record. */
  lemma RowIdentifiesJob(a: SheetJob, b: SheetJob)
    requires '"' !in a.url && '"' !in a.title && '"' !in b.url && '"' !in b.title
    requires ToGoogleSheetsRow(a) == ToGoogleSheetsRow(b)
    ensures a == b
  {
    LinkedInJob.HyperlinkRoundTrip(a.url, a.title);
    LinkedInJob.HyperlinkRoundTrip(b.url, b.title);
    assert ToGoogleSheetsRow(a)[2] == ToGoogleSheetsRow(b)[2];
  }
}
