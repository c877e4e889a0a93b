/**
 * `LinkedInJob`: a job application read out of LinkedIn's confirmation
 * email, the shortened company and job names, and the spreadsheet row.
 *
 * The library pieces the class leans on stay abstract: `Whittler.whittle`
 * and `Whittler.pop` are the two functions of a `Whittler` value, the
 * parsed HTML is a `Soup` of anchors and text fragments, and `strptime`
 * and `date.today()` are parameters.
 */
module LinkedInJob {
  import opened Wrappers
  import opened Text
  import opened Dates
  import JobNameRegex

  // ---------------------------------------------------------------------
  // Class constants
  // ---------------------------------------------------------------------

  const COMPANY_ABBR: seq<(string, string)> := [("Technology", "Tech"), ("Solution", "Soln")]
  const JOB_ABBR: seq<(string, string)> := [("Senior", "Sr")]
  /** `ABBR.values()`, in insertion order. */
  const ABBR: seq<seq<(string, string)>> := [COMPANY_ABBR, JOB_ABBR]
  const APP_DATE_PREFIX := "Applied on "
  const STATUS_FORMULA := "=if(isdate(A2),if(today()-A2>30,\"Stale\",\"Active\"),\"Not Yet\")"
  /** `FORMULAS[key]`: only "status" is there; the "date" entry is commented out. */
  function Formula(key: string): Option<string> {
    if key == "status" then Some(STATUS_FORMULA) else None
  }
  const MAIL_SUBJECT := "your application was sent to "
  const UNNEEDED: seq<string> := [", Inc.", "Inc", "L.L.C", "LLC", "The"]
  const JOB_VIEW := "/jobs/view/"
  const COMPANY_MAX_LEN: nat := 24
  const NAME_MAX_LEN: nat := 30

  /** A `LinkedInJob` object's fields. */
  datatype Job = Job(company: string, contact: string, date: string, name: string, src: string, url: string)

  /** `LinkedInJob.__init__`: the date is the ISO form of `applied_on`; without one it is `FORMULAS["date"]`, which is missing. */
  function NewJob(company: string, name: string, url: string, src: string, contact: string,
                  appliedOn: Option<Date>): (r: Result<Job>)
    requires appliedOn.Some? ==> ValidDate(appliedOn.value)
    ensures appliedOn.None? <==> r == Err(KeyError)
    ensures r.Ok? ==> (r.value.company == company && r.value.name == name && r.value.url == url
      && r.value.src == src && r.value.contact == contact
      && ParseDateIso(r.value.date) == appliedOn)
  {
    if appliedOn.Some? then
      DateIsoRoundTrip(appliedOn.value);
      Ok(Job(company, contact, DateIso(appliedOn.value), name, src, url))
    else match Formula("date") {
      case Some(f) => Ok(Job(company, contact, f, name, src, url))
      case None => Err(KeyError)
    }
  }

  // ---------------------------------------------------------------------
  // The abstract library: Whittler
  // ---------------------------------------------------------------------

  /** The calls the class makes to `Whittler.whittle`, each with the items it hands over. */
  datatype WhittleCall =
    | RemoveUnneeded(items: seq<string>)            // `str.replace` with the extra argument [" "]
    | Abbreviate(pairs: seq<(string, string)>)      // `str.replace(x, *pair).strip()`
    | RemoveNoise(patterns: seq<string>, titleNoun: Option<string>) // `regx.sub("", x)`, viable when non-empty and keeping the noun

  /** The calls the class makes to `Whittler.pop`. */
  datatype PopCall =
    | PopCompanyWords              // `pop(name.split(), is_too_long)`
    | PopTitleParts                // `pop(parts, is_too_long, 0, TITLE.search)`
    | PopAfterTitle(minLen: nat)   // `pop(words, is_too_long, min_len=...)`
    | PopFromFront                 // `pop(name.split(), is_too_long, pop_ix=0)`

  /**
   * `Whittler` as the model sees it: `whittle` reduces a string given the
   * call and the length limit behind `is_too_long`; `pop` joins a list of
   * parts back into a string and, for the title search, returns the first
   * group of the `TITLE` match it found.
   */
  datatype Whittler = Whittler(
    whittle: (string, WhittleCall, nat) -> string,
    pop: (seq<string>, PopCall, nat) -> (string, Option<string>))

  /** `make_name_len_checker(max_len)(name)`. */
  predicate IsTooLong(name: string, maxLen: nat) {
    |name| > maxLen
  }

  // ---------------------------------------------------------------------
  // shorten_company
  // ---------------------------------------------------------------------

  /** The company name after the whittling and popping steps, before the final slice. */
  function CompanyBeforeCut(lib: Whittler, entire: string, maxLen: nat): string {
    var name := lib.whittle(Strip(entire), RemoveUnneeded(UNNEEDED), maxLen);
    var name := lib.whittle(name, Abbreviate(COMPANY_ABBR), maxLen);
    lib.pop(Words(name, IsSpace), PopCompanyWords, maxLen).0
  }

  /** `shorten_company`: whatever the library does, the result fits in `max_len` and is a prefix of what it produced, unchanged when that already fits. */
  function ShortenCompany(lib: Whittler, entire: string, maxLen: nat): (r: string)
    ensures |r| <= maxLen
    ensures var pre := CompanyBeforeCut(lib, entire, maxLen);
      |r| <= |pre| && r == pre[..|r|] && (!IsTooLong(pre, maxLen) ==> r == pre)
  {
    var name := CompanyBeforeCut(lib, entire, maxLen);
    if IsTooLong(name, maxLen) then name[..maxLen] else name
  }

  // ---------------------------------------------------------------------
  // shorten_name
  // ---------------------------------------------------------------------

  /** The name after `whittle` has been run once per group of abbreviations, in order. */
  function WhittleGroups(lib: Whittler, name: string, groups: seq<seq<(string, string)>>, maxLen: nat): string
    decreases |groups|
  {
    if |groups| == 0 then name
    else lib.whittle(WhittleGroups(lib, name, groups[..|groups| - 1], maxLen), Abbreviate(Last(groups)), maxLen)
  }

  /** The loop `for shortenings in cls.ABBR.values()` of `shorten_name`. */
  method AbbreviateAll(lib: Whittler, name: string, maxLen: nat) returns (r: string)
    ensures r == lib.whittle(lib.whittle(name, Abbreviate(COMPANY_ABBR), maxLen), Abbreviate(JOB_ABBR), maxLen)
  {
    r := name;
    for i := 0 to |ABBR|
      invariant r == WhittleGroups(lib, name, ABBR[..i], maxLen)
    {
      assert ABBR[..i + 1][..i] == ABBR[..i];
      r := lib.whittle(r, Abbreviate(ABBR[i]), maxLen);
    }
    assert ABBR[..2] == ABBR && ABBR[..1] == [COMPANY_ABBR];
  }

  /** `words.index(title_noun) + 1 if title_noun else 1`. */
  function TitleNounPosition(words: seq<string>, noun: Option<string>): (r: Result<nat>)
    ensures (noun.None? || noun.value == "") ==> r == Ok(1)
    ensures noun.Some? && noun.value != "" ==>
      (r.Err? <==> noun.value !in words)
      && (r.Err? ==> r.error == ValueError)
      && (r.Ok? ==> 1 <= r.value <= |words| && words[r.value - 1] == noun.value && noun.value !in words[..r.value - 1])
  {
    if noun.Some? && noun.value != "" then
      if noun.value in words then Ok(IndexOf(words, noun.value) + 1) else Err(ValueError)
    else Ok(1)
  }

  /** The job name after the `Whittler` steps of `shorten_name`. */
  function WhittledName(lib: Whittler, entire: string, maxLen: nat): Result<string> {
    var parts := JobNameRegex.BoundSplit(Strip(entire));
    var (name, noun) := lib.pop(parts, PopTitleParts, maxLen);
    var name := lib.whittle(name, RemoveNoise(JobNameRegex.PatternList(), noun), maxLen);
    var name := lib.whittle(lib.whittle(name, Abbreviate(COMPANY_ABBR), maxLen), Abbreviate(JOB_ABBR), maxLen);
    var words := Words(name, IsSpace);
    var pos :- TitleNounPosition(words, noun);
    var name := lib.pop(words, PopAfterTitle(pos), maxLen).0;
    Ok(lib.pop(Words(name, IsSpace), PopFromFront, maxLen).0)
  }

  /** The job name after every step of `shorten_name` but the final cut. */
  function NameBeforeCut(lib: Whittler, entire: string, maxLen: nat): Result<string> {
    var name :- WhittledName(lib, entire, maxLen);
    Ok(CleanName(name))
  }

  /**
   * The clean-up after whittling: `normalize`, `strip`, `removesuffix("s")`.
   * The result is what `normalize` left, minus at most one trailing "s".
   */
  function CleanName(name: string): (r: string)
    ensures var n := JobNameRegex.Normalize(name);
      NormalizedShape(n) && (r == n || r + "s" == n)
  {
    var n := JobNameRegex.Normalize(name);
    JobNameRegex.NormalizeShape(name);
    NormalizedIsStripped(n);
    RemoveSuffixAtMostOne(n, 's');
    RemoveSuffix(Strip(n), "s")
  }

  /** A word character, '/', 's' is already normalized: word characters at both ends, no whitespace at the slash. */
  lemma NormalizeKeepsSlashExample(c: char)
    requires IsWordChar(c)
    ensures JobNameRegex.Normalize([c, '/'] + "s") == [c, '/'] + "s"
  {
    var n := [c, '/'] + "s";
    assert IsWordChar(n[0]) && IsWordChar(n[2]);
    assert JobNameRegex.NoSpaceAroundSlash(n) by {
      JobNameRegex.WordCharNotSpace(c);
      JobNameRegex.WordCharNotSpace('s');
    }
    JobNameRegex.SlashSubKeeps(n);
    TrimStartNothing(n, JobNameRegex.StartJunk);
    TrimEndNothing(n, JobNameRegex.EndJunk);
  }

  /** A word with a trailing "s" and no leading whitespace is left alone by `strip`. */
  lemma StripKeepsTrailingS(w: string)
    requires |w| > 0 && !IsSpace(w[0])
    ensures Strip(w + "s") == w + "s"
  {
    var n := w + "s";
    assert n[0] == w[0] && n[|n| - 1] == 's';
    NormalizedIsStripped(n);
  }

  /** `removesuffix("s")` takes a trailing "s" back off. */
  lemma RemoveTrailingS(w: string)
    ensures RemoveSuffix(w + "s", "s") == w
  {
    var n := w + "s";
    assert n[|w|..] == "s" && n[..|w|] == w;
  }

  /** A normalized name ending in "s" loses exactly that "s" in the clean-up. */
  lemma CleanNameDropsTrailingS(w: string)
    requires |w| > 0 && !IsSpace(w[0]) && JobNameRegex.Normalize(w + "s") == w + "s"
    ensures CleanName(w + "s") == w
  {
    StripKeepsTrailingS(w);
    RemoveTrailingS(w);
  }

  /** The clean-up can leave a name ending in '/': "a/s" loses its "s" and keeps the slash. */
  lemma CleanNameCanEndInSlash(c: char)
    requires IsWordChar(c)
    ensures CleanName([c, '/'] + "s") == [c, '/']
  {
    JobNameRegex.WordCharNotSpace(c);
    NormalizeKeepsSlashExample(c);
    CleanNameDropsTrailingS([c, '/']);
  }

  /** The final step of `shorten_name`: `name[:name.rfind(" ", len(name) - max_len) + 1]` when too long. */
  function Cut(name: string, maxLen: nat): (r: string)
    ensures |r| <= |name| && r == name[..|r|]
    ensures !IsTooLong(name, maxLen) ==> r == name
  {
    if IsTooLong(name, maxLen) then name[..RFind(name, " ", |name| - maxLen) + 1] else name
  }

  /**
   * A name that is too long is cut just after the last space at or after
   * index `len - max_len`, or to "" when there is none there.
   */
  lemma CutAtLastSpace(name: string, maxLen: nat)
    requires IsTooLong(name, maxLen)
    ensures var r := Cut(name, maxLen);
      && (|r| > 0 ==> (r[|r| - 1] == ' ' && |r| - 1 >= |name| - maxLen
            && forall j :: |r| <= j < |name| ==> name[j] != ' '))
      && (|r| == 0 ==> forall j :: |name| - maxLen <= j < |name| ==> name[j] != ' ')
  {
    var i := RFind(name, " ", |name| - maxLen);
    if i >= 0 {
      OccursChar(name, ' ', i);
      forall j | i < j < |name| ensures name[j] != ' ' {
        OccursChar(name, ' ', j);
      }
    } else {
      forall j | |name| - maxLen <= j < |name| ensures name[j] != ' ' {
        OccursChar(name, ' ', j);
      }
    }
  }

  /** `shorten_name` as a value: the pipeline, then the cut. */
  function ShortenedName(lib: Whittler, entire: string, maxLen: nat): Result<string> {
    var pre :- NameBeforeCut(lib, entire, maxLen);
    Ok(Cut(pre, maxLen))
  }

  /** `shorten_name`, step by step. */
  method ShortenName(lib: Whittler, entire: string, maxLen: nat) returns (r: Result<string>)
    ensures r == ShortenedName(lib, entire, maxLen)
  {
    var parts := JobNameRegex.BoundSplit(Strip(entire));
    var popped := lib.pop(parts, PopTitleParts, maxLen);
    var name := popped.0;
    var noun := popped.1;
    name := lib.whittle(name, RemoveNoise(JobNameRegex.PatternList(), noun), maxLen);
    name := AbbreviateAll(lib, name, maxLen);
    var words := Words(name, IsSpace);
    var pos := TitleNounPosition(words, noun);
    if pos.Err? {
      return Err(pos.error);
    }
    name := lib.pop(words, PopAfterTitle(pos.value), maxLen).0;
    name := lib.pop(Words(name, IsSpace), PopFromFront, maxLen).0;
    name := RemoveSuffix(Strip(JobNameRegex.Normalize(name)), "s");
    r := Ok(Cut(name, maxLen));
  }

  /** `shorten_name` fails only through `words.index`, when the title noun found is no longer one of the words. */
  lemma ShortenedNameFails(lib: Whittler, entire: string, maxLen: nat)
    ensures var r := ShortenedName(lib, entire, maxLen);
      r.Err? ==> r.error == ValueError
  {
  }

  /** What `normalize` guarantees about its result. */
  predicate NormalizedShape(r: string) {
    && (r == [] || IsWordChar(r[0]) || r[0] == '(')
    && (r == [] || IsWordChar(r[|r| - 1]) || r[|r| - 1] == ')')
    && JobNameRegex.NoSpaceAroundSlash(r)
  }

  /** The `.strip()` after `normalize` has nothing left to remove. */
  lemma NormalizedIsStripped(r: string)
    requires r == [] || (!IsSpace(r[0]) && !IsSpace(r[|r| - 1]))
    ensures Strip(r) == r
  {
    TrimStartNothing(r, IsSpace);
    TrimEndNothing(r, IsSpace);
  }

  /** `removesuffix` of one character drops that character once or not at all. */
  lemma RemoveSuffixAtMostOne(s: string, c: char)
    ensures var r := RemoveSuffix(s, [c]);
      (r == s && (s == [] || s[|s| - 1] != c)) || (r + [c] == s)
  {
  }

  /** The cut alone does not bound the length: "aaaaaaa b" with a limit of 3 keeps 8 characters. */
  lemma CutCanExceedLimit()
    ensures Cut("aaaaaaa b", 3) == "aaaaaaa "
    ensures |Cut("aaaaaaa b", 3)| > 3
  {
    var s := "aaaaaaa b";
    OccursChar(s, ' ', 7);
    var i := RFind(s, " ", 6);
    assert i == 7 by {
      forall j | 8 <= j < 9 ensures !OccursAt(s, " ", j) {
        OccursChar(s, ' ', j);
      }
    }
  }

  // ---------------------------------------------------------------------
  // toGoogleSheetsRow
  // ---------------------------------------------------------------------

  const QUOTE := "\""

  /** The spreadsheet formula `=HYPERLINK("url","title")`. */
  function Hyperlink(url: string, title: string): (cell: string)
    ensures |cell| == |url| + |title| + 17
  {
    "=HYPERLINK(" + QUOTE + url + QUOTE + "," + QUOTE + title + QUOTE + ")"
  }

  lemma JoinFive(a: string, b: string, c: string, d: string, e: string, sep: string)
    ensures Join([a, b, c, d, e], sep) == a + sep + b + sep + c + sep + d + sep + e
  {
    var p := [a, b, c, d, e];
    assert p[1..] == [b, c, d, e] && p[2..] == [c, d, e] && p[3..] == [d, e] && p[4..] == [e];
    assert Join(p[3..], sep) == d + sep + e;
    assert Join(p[2..], sep) == c + sep + (d + sep + e);
    assert Join(p[1..], sep) == b + sep + (c + sep + (d + sep + e));
    assert Join(p, sep) == a + sep + (b + sep + (c + sep + (d + sep + e)));
  }

  /** A hyperlink cell splits back into its URL and title at the double quotes, when neither holds one. */
  lemma HyperlinkRoundTrip(url: string, title: string)
    requires '"' !in url && '"' !in title
    ensures Split(Hyperlink(url, title), "\"") == ["=HYPERLINK(", url, ",", title, ")"]
  {
    var parts := ["=HYPERLINK(", url, ",", title, ")"];
    JoinFive("=HYPERLINK(", url, ",", title, ")", QUOTE);
    SplitJoin(parts, QUOTE);
  }

  /** The six cells of a sheet row, in column order, once the company and the title are shortened. */
  function SheetsRow(job: Job, company: string, title: string): (row: seq<string>)
    ensures |row| == 6
    ensures row[0] == job.date && row[1] == company && row[2] == Hyperlink(job.url, title)
    ensures row[3] == STATUS_FORMULA && row[4] == job.src && row[5] == job.contact
  {
    var status := Formula("status");
    [job.date, company, Hyperlink(job.url, title), if status.Some? then status.value else "", job.src, job.contact]
  }

  /** `toGoogleSheetsRow`: it fails exactly when `shorten_name` does; otherwise the company cell fits in 24 characters. */
  function ToSheetsRow(lib: Whittler, job: Job): (r: Result<seq<string>>)
    ensures r.Err? <==> ShortenedName(lib, job.name, NAME_MAX_LEN).Err?
    ensures r.Ok? ==> r.value == SheetsRow(job, ShortenCompany(lib, job.company, COMPANY_MAX_LEN),
                                           ShortenedName(lib, job.name, NAME_MAX_LEN).value)
    ensures r.Ok? ==> |r.value[1]| <= COMPANY_MAX_LEN
  {
    var name :- ShortenedName(lib, job.name, NAME_MAX_LEN);
    Ok(SheetsRow(job, ShortenCompany(lib, job.company, COMPANY_MAX_LEN), name))
  }

  // ---------------------------------------------------------------------
  // fromGmailMsg: from the raw message to the HTML body
  // ---------------------------------------------------------------------

  /** The company: what follows the last `MAIL_SUBJECT` in the subject, or the whole subject. */
  function CompanyOf(subject: string): (company: string)
    ensures !Contains(company, MAIL_SUBJECT)
    ensures TailAfterSeparator(subject, company, MAIL_SUBJECT)
  {
    SplitLast(subject, MAIL_SUBJECT);
    SplitPiecesFree(subject, MAIL_SUBJECT);
    Last(Split(subject, MAIL_SUBJECT))
  }

  /** The partial quoted-printable clean-up: drop CRs, join soft line breaks `=\n`, decode `=3D`. */
  function Despace(raw: string): string {
    ReplaceAll(ReplaceAll(ReplaceAll(raw, "\r", ""), "=\n", ""), "=3D", "=")
  }

  /** Quoted-printable escaping of '=' as `=3D`, the only escape `Despace` decodes. */
  function EscapeEquals(t: string): (e: string)
    ensures forall i :: 0 <= i < |e| && e[i] == '=' ==> OccursAt(e, "=3D", i)
    ensures '\r' !in t ==> '\r' !in e
  {
    if |t| == 0 then ""
    else if t[0] == '=' then "=3D" + EscapeEquals(t[1..])
    else [t[0]] + EscapeEquals(t[1..])
  }

  lemma NoSoftBreakInEscaped(t: string)
    ensures !Contains(EscapeEquals(t), "=\n")
  {
    var e := EscapeEquals(t);
    forall i | 0 <= i <= |e| - 2 ensures !OccursAt(e, "=\n", i) {
      if e[i] == '=' {
        assert e[i + 1] == e[i..i + 3][1] == '3';
        assert e[i..i + 2][1] == '3';
      }
    }
  }

  lemma {:induction false} DecodeEscaped(t: string)
    ensures ReplaceAll(EscapeEquals(t), "=3D", "=") == t
  {
    if |t| > 0 {
      DecodeEscaped(t[1..]);
      var e := EscapeEquals(t);
      if t[0] == '=' {
        assert e[..3] == "=3D" && e[3..] == EscapeEquals(t[1..]);
      } else {
        assert e[1..] == EscapeEquals(t[1..]);
        assert |e| < 3 || e[..3] != "=3D" by {
          if |e| >= 3 { assert e[..3][0] == e[0] == t[0]; }
        }
      }
    }
  }

  /** The clean-up decodes what escaping '=' encoded, for text without CRs. */
  lemma DespaceInvertsEscape(t: string)
    requires '\r' !in t
    ensures Despace(EscapeEquals(t)) == t
  {
    var e := EscapeEquals(t);
    ContainsChar(e, '\r');
    NoSoftBreakInEscaped(t);
    DecodeEscaped(t);
  }

  /** `despaced[find("<body"):rfind("</body>") + 7]`. */
  function BodyOf(d: string): string {
    Slice(d, Find(d, "<body"), RFind(d, "</body>", 0) + 7)
  }

  /** When the body tags are there in order, the slice runs from `<body` through the last `</body>`. */
  lemma BodyOfBounds(d: string)
    ensures var i, j := Find(d, "<body"), RFind(d, "</body>", 0);
      && (i >= 0 && j >= i ==> (BodyOf(d) == d[i..j + 7]
            && BodyOf(d)[..5] == "<body" && BodyOf(d)[|BodyOf(d)| - 7..] == "</body>"))
      && (i == -1 ==> |BodyOf(d)| <= 1)
      && (j == -1 ==> |BodyOf(d)| <= 6)
  {
    var i, j := Find(d, "<body"), RFind(d, "</body>", 0);
    if i >= 0 && j >= i {
      var b := d[i..j + 7];
      assert b[..5] == d[i..i + 5];
      assert b[|b| - 7..] == d[j..j + 7];
    }
  }

  // ---------------------------------------------------------------------
  // fromGmailMsg: scanning the parsed body
  // ---------------------------------------------------------------------

  /** An HTML element, seen through the strings under it. */
  datatype Element = Element(strings: seq<string>)

  /** An `<a>` element: its strings and its `href` attribute, if any. */
  datatype Anchor = Anchor(strings: seq<string>, href: Option<string>)

  /** The parsed body: its anchors in document order, and the parts `Peeler.peel2` yields. */
  datatype Soup = Soup(anchors: seq<Anchor>, parts: seq<Element>)

  /** `get_text(strip=True)`: each string stripped, empty ones dropped, the rest concatenated. */
  function StrippedText(strings: seq<string>): (t: string)
  {
    if |strings| == 0 then ""
    else StrippedText(strings[..|strings| - 1]) + Strip(Last(strings))
  }

  /** A string that `strip` empties. */
  predicate Blank(s: string) {
    Strip(s) == ""
  }

  /** Every string of `strings` strips to nothing. */
  predicate AllBlank(strings: seq<string>) {
    forall k :: 0 <= k < |strings| ==> Blank(strings[k])
  }

  /** The strings are all blank exactly when all but the last are and the last is. */
  lemma AllBlankLast(strings: seq<string>)
    requires |strings| > 0
    ensures AllBlank(strings) <==> AllBlank(strings[..|strings| - 1]) && Blank(Last(strings))
  {
    var init := strings[..|strings| - 1];
    if AllBlank(strings) {
      forall k | 0 <= k < |init| ensures Blank(init[k]) {
        assert strings[k] == init[k];
      }
    }
    if AllBlank(init) && Blank(Last(strings)) {
      forall k | 0 <= k < |strings| ensures Blank(strings[k]) {
        if k < |init| {
          assert strings[k] == init[k];
        }
      }
    }
  }

  /** The stripped text is empty exactly when every string is blank. */
  lemma {:induction false} StrippedTextEmpty(strings: seq<string>)
    ensures StrippedText(strings) == "" <==> AllBlank(strings)
  {
    if |strings| > 0 {
      var init := strings[..|strings| - 1];
      var head, t := StrippedText(init), Strip(Last(strings));
      assert StrippedText(strings) == head + t;
      assert head + t == "" <==> head == "" && t == "" by {
        if head + t == "" {
          assert |head| + |t| == 0;
        }
      }
      assert head == "" <==> AllBlank(init) by {
        StrippedTextEmpty(init);
      }
      AllBlankLast(strings);
    }
  }

  /** The strings left after `blank_str.extract()` removed each one that is exactly " ". */
  function DropSpaceStrings(strings: seq<string>): (r: seq<string>)
    ensures |r| <= |strings|
    ensures forall k :: 0 <= k < |r| ==> r[k] != " "
    ensures forall t :: t in r <==> t in strings && t != " "
  {
    if |strings| == 0 then []
    else
      var x := Last(strings);
      DropSpaceStrings(strings[..|strings| - 1]) + (if x == " " then [] else [x])
  }

  /** `body.find_all(string=' ')` then `extract()`: every element of the parsed body loses its " " strings. */
  function ExtractSpaceStrings(soup: Soup): (r: Soup)
    ensures |r.anchors| == |soup.anchors| && |r.parts| == |soup.parts|
    ensures forall i :: 0 <= i < |r.anchors| ==>
      r.anchors[i] == Anchor(DropSpaceStrings(soup.anchors[i].strings), soup.anchors[i].href)
    ensures forall i :: 0 <= i < |r.parts| ==> r.parts[i] == Element(DropSpaceStrings(soup.parts[i].strings))
  {
    Soup(seq(|soup.anchors|, i requires 0 <= i < |soup.anchors| =>
           Anchor(DropSpaceStrings(soup.anchors[i].strings), soup.anchors[i].href)),
         seq(|soup.parts|, i requires 0 <= i < |soup.parts| => Element(DropSpaceStrings(soup.parts[i].strings))))
  }

  /** A " " string strips to nothing. */
  lemma SpaceIsBlank()
    ensures Strip(" ") == ""
  {
    var empty: string := "";
    assert IsSpace(' ') && [' '] + empty == " ";
    TrimStartDropsOne(' ', empty, IsSpace);
    TrimStartNothing(empty, IsSpace);
    TrimEndNothing(empty, IsSpace);
  }

  /** Removing the " " strings changes no stripped text, so neither scan of `fromGmailMsg` sees it. */
  lemma {:induction false} DropSpaceStringsKeepsStrippedText(strings: seq<string>)
    ensures StrippedText(DropSpaceStrings(strings)) == StrippedText(strings)
  {
    if |strings| > 0 {
      var init, x := strings[..|strings| - 1], Last(strings);
      var d := DropSpaceStrings(init);
      DropSpaceStringsKeepsStrippedText(init);
      if x == " " {
        SpaceIsBlank();
        assert DropSpaceStrings(strings) == d + [];
        assert d + [] == d;
      } else {
        assert DropSpaceStrings(strings) == d + [x];
        assert (d + [x])[..|d|] == d;
        assert StrippedText(d + [x]) == StrippedText(d) + Strip(x);
      }
    }
  }

  /** The extraction leaves every anchor's and every part's stripped text as it was: only `.text` of an anchor can change. */
  lemma ExtractKeepsStrippedTexts(soup: Soup)
    ensures var r := ExtractSpaceStrings(soup);
      && (forall i :: 0 <= i < |soup.anchors| ==>
            StrippedText(r.anchors[i].strings) == StrippedText(soup.anchors[i].strings)
            && r.anchors[i].href == soup.anchors[i].href)
      && (forall i :: 0 <= i < |soup.parts| ==> StrippedText(r.parts[i].strings) == StrippedText(soup.parts[i].strings))
  {
    forall i | 0 <= i < |soup.anchors|
      ensures StrippedText(DropSpaceStrings(soup.anchors[i].strings)) == StrippedText(soup.anchors[i].strings)
    {
      DropSpaceStringsKeepsStrippedText(soup.anchors[i].strings);
    }
    forall i | 0 <= i < |soup.parts|
      ensures StrippedText(DropSpaceStrings(soup.parts[i].strings)) == StrippedText(soup.parts[i].strings)
    {
      DropSpaceStringsKeepsStrippedText(soup.parts[i].strings);
    }
  }

  /** `.text`: the strings concatenated. */
  function AllText(strings: seq<string>): string {
    Join(strings, "")
  }

  /** The anchor the link scan stops at: non-blank text and an href through `/jobs/view/`. */
  predicate IsJobLink(a: Anchor)
    requires a.href.Some?
  {
    StrippedText(a.strings) != "" && Contains(a.href.value, JOB_VIEW)
  }

  /** The scan went past anchors `k` to `n - 1`: each had an href and was not a job link. */
  predicate PassedLinks(links: seq<Anchor>, k: nat, n: nat)
    requires k <= n <= |links|
  {
    forall j :: k <= j < n ==> links[j].href.Some? && !IsJobLink(links[j])
  }

  /** The link scan from anchor `k` on: `attrs["href"]` fails on an anchor without one, and the scan stops at the first job link. */
  function JobLinkScan(links: seq<Anchor>, k: nat): Result<nat>
    requires k <= |links|
    decreases |links| - k
  {
    if k == |links| then Err(ValueError)
    else if links[k].href.None? then Err(KeyError)
    else if IsJobLink(links[k]) then Ok(k)
    else JobLinkScan(links, k + 1)
  }

  /** A link the scan stops at is a job link, and every anchor before it was passed. */
  lemma {:induction false} JobLinkScanStops(links: seq<Anchor>, k: nat)
    requires k <= |links|
    ensures var r := JobLinkScan(links, k);
      r.Ok? ==> (k <= r.value < |links| && PassedLinks(links, k, r.value)
        && links[r.value].href.Some? && IsJobLink(links[r.value]))
    decreases |links| - k
  {
    if k < |links| && links[k].href.Some? && !IsJobLink(links[k]) {
      JobLinkScanStops(links, k + 1);
      var r := JobLinkScan(links, k + 1);
      if r.Ok? {
        assert PassedLinks(links, k, r.value) by {
          forall j | k <= j < r.value ensures links[j].href.Some? && !IsJobLink(links[j]) {
            if j > k {
              assert PassedLinks(links, k + 1, r.value);
            }
          }
        }
      }
    }
  }

  /** The scan runs out, with `ValueError`, exactly when it passes every anchor. */
  lemma {:induction false} JobLinkScanExhausted(links: seq<Anchor>, k: nat)
    requires k <= |links|
    ensures JobLinkScan(links, k) == Err(ValueError) <==> PassedLinks(links, k, |links|)
    decreases |links| - k
  {
    if k < |links| && links[k].href.Some? && !IsJobLink(links[k]) {
      JobLinkScanExhausted(links, k + 1);
    }
  }

  /** The scan fails with `KeyError` only at an anchor without an href that it reached. */
  lemma {:induction false} JobLinkScanMissingHref(links: seq<Anchor>, k: nat)
    requires k <= |links|
    ensures var r := JobLinkScan(links, k);
      && (r.Err? ==> r.error == ValueError || r.error == KeyError)
      && (r == Err(KeyError) ==> exists i :: k <= i < |links| && PassedLinks(links, k, i) && links[i].href.None?)
    decreases |links| - k
  {
    if k < |links| && links[k].href.Some? && !IsJobLink(links[k]) {
      JobLinkScanMissingHref(links, k + 1);
      if JobLinkScan(links, k + 1) == Err(KeyError) {
        var i :| k + 1 <= i < |links| && PassedLinks(links, k + 1, i) && links[i].href.None?;
        assert PassedLinks(links, k, i);
      }
    } else if k < |links| && links[k].href.None? {
      assert PassedLinks(links, k, k);
    }
  }

  /**
   * What the scan finds: the first job link, provided every anchor before
   * it has an href; `KeyError` at an earlier anchor without one;
   * `ValueError` when every anchor was passed.
   */
  lemma JobLinkScanFinds(links: seq<Anchor>, k: nat)
    requires k <= |links|
    ensures var r := JobLinkScan(links, k);
      && (r.Ok? ==> (k <= r.value < |links| && PassedLinks(links, k, r.value)
            && links[r.value].href.Some? && IsJobLink(links[r.value])))
      && (r == Err(ValueError) <==> PassedLinks(links, k, |links|))
      && (r.Err? ==> r.error == ValueError || r.error == KeyError)
      && (r == Err(KeyError) ==> exists i :: k <= i < |links| && PassedLinks(links, k, i) && links[i].href.None?)
  {
    JobLinkScanStops(links, k);
    JobLinkScanExhausted(links, k);
    JobLinkScanMissingHref(links, k);
  }

  /** The first `while` loop of `fromGmailMsg`: the index of the first job link. */
  method FindJobLink(links: seq<Anchor>) returns (r: Result<nat>)
    ensures r == JobLinkScan(links, 0)
  {
    var ix := 0;
    while ix < |links|
      invariant 0 <= ix <= |links| && JobLinkScan(links, ix) == JobLinkScan(links, 0)
    {
      if links[ix].href.None? {
        return Err(KeyError);
      }
      if IsJobLink(links[ix]) {
        return Ok(ix);
      }
      ix := ix + 1;
    }
    r := Err(ValueError);
  }

  /** `len(datesplit) > 1`: the part's text holds the "Applied on " marker. */
  predicate HasAppDate(p: Element) {
    |Split(StrippedText(p.strings), APP_DATE_PREFIX)| > 1
  }

  /** `datesplit[1]`: the text between the first marker and the next one, or the end. */
  function AppDateText(p: Element): string
    requires HasAppDate(p)
  {
    Split(StrippedText(p.strings), APP_DATE_PREFIX)[1]
  }

  /** The test the loop makes is `"Applied on " in text`, and the date text starts right after the first marker. */
  lemma AppDateTextAfterMarker(p: Element)
    ensures HasAppDate(p) <==> Contains(StrippedText(p.strings), APP_DATE_PREFIX)
    ensures HasAppDate(p) ==> var t := StrippedText(p.strings); var i := Find(t, APP_DATE_PREFIX);
      AppDateText(p) == Split(t[i + |APP_DATE_PREFIX|..], APP_DATE_PREFIX)[0]
      && !Contains(t[..i], APP_DATE_PREFIX)
  {
    var t := StrippedText(p.strings);
    SplitHead(t, APP_DATE_PREFIX);
    SplitPiecesFree(t, APP_DATE_PREFIX);
  }

  /** A date later than today becomes today. */
  function ClampToToday(d: Date, today: Date): (r: Date)
    requires ValidDate(d) && ValidDate(today)
    ensures ValidDate(r) && !IsAfter(r, today)
    ensures r == d || r == today
    ensures !IsAfter(d, today) ==> r == d
  {
    if IsAfter(d, today) then today else d
  }

  /** `strptime(text, '%B %d, %Y').date()`, when it succeeds, is a real date. */
  ghost predicate GivesDates(parseDate: string -> Option<Date>) {
    forall t :: parseDate(t).Some? ==> ValidDate(parseDate(t).value)
  }

  /** The parts `k` to `n - 1` hold no marker. */
  predicate NoDateIn(parts: seq<Element>, k: nat, n: nat)
    requires k <= n <= |parts|
  {
    forall j :: k <= j < n ==> !HasAppDate(parts[j])
  }

  /** The date scan from part `k` on: the first part with the marker decides, through `strptime` and the clamp. */
  function DateScan(parts: seq<Element>, k: nat, parseDate: string -> Option<Date>, today: Date): Result<Date>
    requires k <= |parts| && GivesDates(parseDate) && ValidDate(today)
    decreases |parts| - k
  {
    if k == |parts| then Err(ValueError)
    else if HasAppDate(parts[k]) then
      match parseDate(AppDateText(parts[k])) {
        case None => Err(ValueError)
        case Some(d) => Ok(ClampToToday(d, today))
      }
    else DateScan(parts, k + 1, parseDate, today)
  }

  /**
   * What the scan finds: the date read from the first part holding the
   * marker, no later than today; `ValueError` when no part holds it or the
   * text after it does not parse.
   */
  lemma {:induction false} DateScanFinds(parts: seq<Element>, k: nat, parseDate: string -> Option<Date>, today: Date)
    requires k <= |parts| && GivesDates(parseDate) && ValidDate(today)
    ensures var r := DateScan(parts, k, parseDate, today);
      && (NoDateIn(parts, k, |parts|) ==> r == Err(ValueError))
      && (r.Err? ==> r.error == ValueError)
      && (r.Ok? ==> ValidDate(r.value) && !IsAfter(r.value, today))
      && (forall i :: k <= i < |parts| && NoDateIn(parts, k, i) && HasAppDate(parts[i]) ==>
            match parseDate(AppDateText(parts[i])) {
              case None => r == Err(ValueError)
              case Some(d) => r == Ok(ClampToToday(d, today))
            })
    decreases |parts| - k
  {
    if k < |parts| && !HasAppDate(parts[k]) {
      DateScanFinds(parts, k + 1, parseDate, today);
      forall i | k < i < |parts| && NoDateIn(parts, k, i) ensures NoDateIn(parts, k + 1, i) { }
    }
  }

  /** The second `while` loop of `fromGmailMsg` and the check after it. */
  method FindApplicationDate(parts: seq<Element>, parseDate: string -> Option<Date>, today: Date)
    returns (r: Result<Date>)
    requires GivesDates(parseDate) && ValidDate(today)
    ensures r == DateScan(parts, 0, parseDate, today)
  {
    var ix := 0;
    while ix < |parts|
      invariant 0 <= ix <= |parts| && DateScan(parts, ix, parseDate, today) == DateScan(parts, 0, parseDate, today)
    {
      var datesplit := Split(StrippedText(parts[ix].strings), APP_DATE_PREFIX);
      if |datesplit| > 1 {
        var parsed := parseDate(datesplit[1]);
        if parsed.None? {
          return Err(ValueError);
        }
        return Ok(ClampToToday(parsed.value, today));
      }
      ix := ix + 1;
    }
    r := Err(ValueError);
  }

  // ---------------------------------------------------------------------
  // fromGmailMsg
  // ---------------------------------------------------------------------

  /** The job's URL and name come from the `i`th anchor, the first job link. */
  predicate FromLink(links: seq<Anchor>, i: int, job: Job) {
    && 0 <= i < |links| && PassedLinks(links, 0, i) && links[i].href.Some? && IsJobLink(links[i])
    && job.url == Split(links[i].href.value, "?")[0]
    && job.company != ""
    && job.name == Strip(Split(AllText(links[i].strings), job.company)[0])
  }

  /** The two things `fromGmailMsg` reads from the `EmailMessage`: the Subject header and `as_string()`. */
  datatype Message = Message(subject: Option<string>, raw: string)

  /**
   * What `fromGmailMsg` returns: company from the subject, body from the
   * cleaned-up message, then the first job link and the first application
   * date. The HTML parser, `strptime` and today's date are parameters.
   */
  function GmailJob(msg: Message, parseHtml: string -> Soup, parseDate: string -> Option<Date>, today: Date): Result<Job>
    requires GivesDates(parseDate) && ValidDate(today)
  {
    if msg.subject.None? then Err(AttributeError)
    else
      var company := CompanyOf(msg.subject.value);
      var body := ExtractSpaceStrings(parseHtml(BodyOf(Despace(msg.raw))));
      var link := JobLinkScan(body.anchors, 0);
      if link.Err? then Err(link.error)
      else
        var date := DateScan(body.parts, 0, parseDate, today);
        if date.Err? then Err(date.error)
        else if company == "" then Err(ValueError)
        else
          JobLinkScanFinds(body.anchors, 0);
          DateScanFinds(body.parts, 0, parseDate, today);
          var jobEl := body.anchors[link.value];
          NewJob(company, Strip(Split(AllText(jobEl.strings), company)[0]), Split(jobEl.href.value, "?")[0],
                 "LinkedIn", "N/A", Some(date.value))
  }

  /**
   * How `fromGmailMsg` ends: `AttributeError` without a Subject, the link
   * scan's error, then the date scan's error, then `ValueError` for an
   * empty company (an empty separator for `split`); otherwise a job built
   * from the first job link and the scanned date.
   */
  lemma GmailJobOutcome(msg: Message, parseHtml: string -> Soup, parseDate: string -> Option<Date>, today: Date)
    requires GivesDates(parseDate) && ValidDate(today)
    ensures var r := GmailJob(msg, parseHtml, parseDate, today);
      && (msg.subject.None? ==> r == Err(AttributeError))
      && (msg.subject.Some? ==>
        var body := ExtractSpaceStrings(parseHtml(BodyOf(Despace(msg.raw))));
        var link := JobLinkScan(body.anchors, 0);
        var date := DateScan(body.parts, 0, parseDate, today);
        && (link.Err? ==> r == Err(link.error))
        && (link.Ok? && date.Err? ==> r == Err(date.error))
        && (link.Ok? && date.Ok? ==>
              && (r.Ok? <==> CompanyOf(msg.subject.value) != "")
              && (r.Err? ==> r.error == ValueError)
              && (r.Ok? ==> FromLink(body.anchors, link.value, r.value) && r.value.date == DateIso(date.value))))
  {
    if msg.subject.Some? {
      var body := ExtractSpaceStrings(parseHtml(BodyOf(Despace(msg.raw))));
      JobLinkScanFinds(body.anchors, 0);
      DateScanFinds(body.parts, 0, parseDate, today);
    }
  }

  /**
   * A job built by `fromGmailMsg`: the subject's company, a URL without
   * '?', source "LinkedIn", contact "N/A", URL and name from the first job
   * link of the body, and an application date no later than today.
   */
  lemma GmailJobFields(msg: Message, parseHtml: string -> Soup, parseDate: string -> Option<Date>, today: Date)
    requires GivesDates(parseDate) && ValidDate(today)
    ensures var r := GmailJob(msg, parseHtml, parseDate, today);
      r.Ok? ==> (msg.subject.Some?
        && r.value.company == CompanyOf(msg.subject.value)
        && !Contains(r.value.company, MAIL_SUBJECT)
        && '?' !in r.value.url
        && r.value.src == "LinkedIn" && r.value.contact == "N/A"
        && (exists i :: FromLink(ExtractSpaceStrings(parseHtml(BodyOf(Despace(msg.raw)))).anchors, i, r.value))
        && exists d :: ValidDate(d) && !IsAfter(d, today) && ParseDateIso(r.value.date) == Some(d))
  {
    var r := GmailJob(msg, parseHtml, parseDate, today);
    if r.Ok? {
      var body := ExtractSpaceStrings(parseHtml(BodyOf(Despace(msg.raw))));
      JobLinkScanFinds(body.anchors, 0);
      DateScanFinds(body.parts, 0, parseDate, today);
      var link := JobLinkScan(body.anchors, 0);
      var jobUrl := body.anchors[link.value].href.value;
      SplitPiecesFree(jobUrl, "?");
      ContainsChar(Split(jobUrl, "?")[0], '?');
      assert FromLink(body.anchors, link.value, r.value);
    }
  }

  /** `fromGmailMsg`, step by step, with its two `while` loops. */
  method FromGmailMsg(msg: Message, parseHtml: string -> Soup, parseDate: string -> Option<Date>, today: Date)
    returns (r: Result<Job>)
    requires GivesDates(parseDate) && ValidDate(today)
    ensures r == GmailJob(msg, parseHtml, parseDate, today)
  {
    if msg.subject.None? {
      return Err(AttributeError);
    }
    var company := CompanyOf(msg.subject.value);
    var body := ExtractSpaceStrings(parseHtml(BodyOf(Despace(msg.raw))));
    var link := FindJobLink(body.anchors);
    if link.Err? {
      return Err(link.error);
    }
    JobLinkScanFinds(body.anchors, 0);
    var jobEl := body.anchors[link.value];
    var jobUrl := jobEl.href.value;
    var date := FindApplicationDate(body.parts, parseDate, today);
    if date.Err? {
      return Err(date.error);
    }
    if company == "" {
      return Err(ValueError);
    }
    DateScanFinds(body.parts, 0, parseDate, today);
    var jobName := Strip(Split(AllText(jobEl.strings), company)[0]);
    r := NewJob(company, jobName, Split(jobUrl, "?")[0], "LinkedIn", "N/A", Some(date.value));
  }
}
