/**
 * The Gmail side of the bot: the headers and body of a drafted reply
 * (`ReplyTo`), and which message IDs a search fetches, newest first
 * (`Gmailer.get_emails_from`). The IMAP connection, the email library and
 * the loaded template are parameters.
 */
module Gmailer {
  import opened Wrappers
  import opened Text
  import SeqTools

  /** A received message, as far as its headers go: `msg[name]` is `None` for a missing header. */
  type Headers = map<string, string>

  /** The values a reply template is filled with: text, or the list of name tokens `get_name` returns. */
  datatype FieldValue = Text(text: string) | Names(names: seq<string>)

  // ---------------------------------------------------------------------
  // ReplyTo
  // ---------------------------------------------------------------------

  /** The reply's subject: "Re: " and the original subject with every CR and LF removed. */
  function ReplySubject(subject: string): string {
    "Re: " + ReplaceAll(ReplaceAll(subject, "\r", ""), "\n", "")
  }

  /** The reply's subject is "Re: " and the original subject without its CR and LF characters, so it is a single line. */
  lemma ReplySubjectRemovesLineBreaks(subject: string)
    ensures ReplySubject(subject) == "Re: " + RemoveChar(RemoveChar(subject, '\r'), '\n')
    ensures '\r' !in ReplySubject(subject) && '\n' !in ReplySubject(subject)
  {
    var a := ReplaceAll(subject, "\r", "");
    ReplaceCharByNothing(subject, '\r');
    var b := ReplaceAll(a, "\n", "");
    ReplaceCharByNothing(a, '\n');
    assert ReplySubject(subject) == "Re: " + b;
    RemoveCharKeeps(a, '\n', '\r');
    assert '\r' !in b;
  }

  /** A subject that is one line already is kept whole after "Re: ". */
  lemma ReplySubjectOfOneLine(subject: string)
    requires '\r' !in subject && '\n' !in subject
    ensures ReplySubject(subject) == "Re: " + subject
  {
    ReplySubjectRemovesLineBreaks(subject);
  }

  /** Every character of the subject other than CR and LF is kept, as often as it occurs. */
  lemma ReplySubjectKeepsText(subject: string, c: char)
    requires c != '\r' && c != '\n'
    ensures multiset(ReplySubject(subject)[4..])[c] == multiset(subject)[c]
  {
    ReplySubjectRemovesLineBreaks(subject);
    RemoveCharKeeps(subject, '\r', c);
    RemoveCharKeeps(RemoveChar(subject, '\r'), '\n', c);
    assert ReplySubject(subject)[4..] == RemoveChar(RemoveChar(subject, '\r'), '\n');
  }

  predicate IsLt(c: char) { c == '<' }
  predicate IsGt(c: char) { c == '>' }

  /** `r` is the stretch of `s` from `i` on, with only '<' before it and only '<' and '>' after it. */
  predicate BracketedStretch(s: string, i: nat, r: string) {
    && i + |r| <= |s| && r == s[i..i + |r|]
    && (forall k :: 0 <= k < i ==> s[k] == '<')
    && (forall k :: i + |r| <= k < |s| ==> s[k] == '<' || s[k] == '>')
  }

  /** The reply's address: Return-Path with '<' stripped from both ends, then '>' stripped from the right. */
  function ReplyAddress(returnPath: string): (r: string)
    ensures r == [] || (r[0] != '<' && r[|r| - 1] != '>')
    ensures exists i: nat :: BracketedStretch(returnPath, i, r)
  {
    var inner := TrimEnd(TrimStart(returnPath, IsLt), IsLt);
    var r := TrimEnd(inner, IsGt);
    assert r == [] || r[0] == inner[0];
    ReplyAddressStretch(returnPath);
    r
  }

  /** Stripping '<' from the right and then '>' leaves a prefix, followed only by brackets. */
  lemma BracketsTrimmedFromEnd(front: string)
    ensures var r := TrimEnd(TrimEnd(front, IsLt), IsGt);
      && r == front[..|r|]
      && forall k :: |r| <= k < |front| ==> front[k] == '<' || front[k] == '>'
  {
    var inner := TrimEnd(front, IsLt);
    var r := TrimEnd(inner, IsGt);
    TrimEndRemoved(front, IsLt);
    TrimEndRemoved(inner, IsGt);
    forall k | |r| <= k < |front|
      ensures front[k] == '<' || front[k] == '>'
    {
      if k < |inner| {
        assert front[k] == inner[k];
      }
    }
  }

  /** A prefix of a suffix of `s`, with only '<' before it and only brackets after it, is a bracketed stretch. */
  lemma StretchOfSuffix(s: string, i: nat, front: string, r: string)
    requires i <= |s| && front == s[i..] && forall k :: 0 <= k < i ==> s[k] == '<'
    requires |r| <= |front| && r == front[..|r|]
    requires forall k :: |r| <= k < |front| ==> front[k] == '<' || front[k] == '>'
    ensures BracketedStretch(s, i, r)
  {
    assert r == s[i..i + |r|];
    forall k | i + |r| <= k < |s|
      ensures s[k] == '<' || s[k] == '>'
    {
      assert s[k] == front[k - i];
    }
  }

  /** Only brackets are removed: the address is the stretch after the leading '<'. */
  lemma ReplyAddressStretch(returnPath: string)
    ensures var front := TrimStart(returnPath, IsLt);
      BracketedStretch(returnPath, |returnPath| - |front|, TrimEnd(TrimEnd(front, IsLt), IsGt))
  {
    var front := TrimStart(returnPath, IsLt);
    TrimStartRemoved(returnPath, IsLt);
    BracketsTrimmedFromEnd(front);
    StretchOfSuffix(returnPath, |returnPath| - |front|, front, TrimEnd(TrimEnd(front, IsLt), IsGt));
  }

  /** An address without brackets at its ends is kept as it is. */
  lemma ReplyAddressUnbracketed(a: string)
    requires a == [] || (a[0] != '<' && a[|a| - 1] != '<' && a[|a| - 1] != '>')
    ensures ReplyAddress(a) == a
  {
    TrimStartNothing(a, IsLt);
    TrimEndNothing(a, IsLt);
    TrimEndNothing(a, IsGt);
  }

  /** Stripping '<' from "<a>" leaves "a>": the last character is no '<'. */
  lemma StripLtOfBracketed(a: string)
    requires a == [] || a[0] != '<'
    ensures TrimEnd(TrimStart("<" + a + ">", IsLt), IsLt) == a + ['>']
  {
    var t := a + ['>'];
    assert "<" + a + ">" == ['<'] + t;
    assert TrimStart(['<'] + t, IsLt) == t by {
      TrimStartDropsOne('<', t, IsLt);
      TrimStartNothing(t, IsLt);
    }
    assert TrimEnd(t, IsLt) == t by {
      TrimEndNothing(t, IsLt);
    }
  }

  /** An address in angle brackets comes back without them. */
  lemma ReplyAddressRoundTrip(a: string)
    requires a == [] || (a[0] != '<' && a[|a| - 1] != '>')
    ensures ReplyAddress("<" + a + ">") == a
  {
    StripLtOfBracketed(a);
    TrimEndDropsOne(a, '>', IsGt);
    TrimEndNothing(a, IsGt);
  }

  /** `get_name` keeps a token of From that neither holds Return-Path nor any digit. */
  predicate KeptForName(token: string, returnPath: string) {
    !Contains(token, returnPath) && !HasDigit(token)
  }

  /** The comprehension of `get_name` over From's tokens: the kept tokens, each reduced to its ASCII letters. */
  function NameTokens(tokens: seq<string>, returnPath: string): (r: seq<string>)
    ensures |r| <= |tokens|
    ensures forall k, i :: 0 <= k < |r| && 0 <= i < |r[k]| ==> IsAsciiLetter(r[k][i])
  {
    if |tokens| == 0 then []
    else
      (if KeptForName(tokens[0], returnPath) then [SeqTools.ExtractLetters(tokens[0])] else [])
      + NameTokens(tokens[1..], returnPath)
  }

  /** The tokens are treated one by one, in order: the comprehension distributes over concatenation. */
  lemma {:induction false} NameTokensAppend(a: seq<string>, b: seq<string>, returnPath: string)
    ensures NameTokens(a + b, returnPath) == NameTokens(a, returnPath) + NameTokens(b, returnPath)
    decreases |a|
  {
    if |a| == 0 {
      assert a + b == b;
    } else {
      NameTokensAppend(a[1..], b, returnPath);
      assert (a + b)[0] == a[0] && (a + b)[1..] == a[1..] + b;
      var head := if KeptForName(a[0], returnPath) then [SeqTools.ExtractLetters(a[0])] else [];
      assert NameTokens(a + b, returnPath) == head + NameTokens(a[1..] + b, returnPath);
      assert NameTokens(a, returnPath) == head + NameTokens(a[1..], returnPath);
    }
  }

  /** A name part is there exactly when some kept token reduces to it. */
  lemma {:induction false} NameTokensMembers(tokens: seq<string>, returnPath: string, y: string)
    ensures y in NameTokens(tokens, returnPath) <==>
      exists i :: 0 <= i < |tokens| && KeptForName(tokens[i], returnPath) && SeqTools.ExtractLetters(tokens[i]) == y
    decreases |tokens|
  {
    if |tokens| > 0 {
      NameTokensMembers(tokens[1..], returnPath, y);
      if exists i :: 1 <= i < |tokens| && KeptForName(tokens[i], returnPath) && SeqTools.ExtractLetters(tokens[i]) == y {
        var i :| 1 <= i < |tokens| && KeptForName(tokens[i], returnPath) && SeqTools.ExtractLetters(tokens[i]) == y;
        assert tokens[1..][i - 1] == tokens[i];
      }
    }
  }

  /** `get_name`: the sender-name tokens of From, split at whitespace. */
  function GetName(from: string, returnPath: string): (r: seq<string>)
    ensures |r| <= |Words(from, IsSpace)|
  {
    NameTokens(Words(from, IsSpace), returnPath)
  }

  /**
   * The fields after the first line of `write`: "name" is popped, and
   * "sender_name" is set to its value, or to the reply's own name when
   * "name" was not given; every other field stays.
   */
  function WrittenFields<V>(fields: map<string, V>, ownName: V): (f: map<string, V>)
    ensures "name" !in f && "sender_name" in f
    ensures f["sender_name"] == if "name" in fields then fields["name"] else ownName
    ensures forall k :: k != "name" && k != "sender_name" ==> (k in f <==> k in fields)
    ensures forall k :: k in fields && k != "name" && k != "sender_name" ==> f[k] == fields[k]
  {
    var named := if "name" in fields then fields["name"] else ownName;
    (fields - {"name"})["sender_name" := named]
  }

  /** Rewriting twice is rewriting once: the second time there is no "name" to pop, and the sender name is set again to what it was. */
  lemma WrittenFieldsAgain<V>(fields: map<string, V>, ownName: V)
    requires "name" !in fields && "sender_name" in fields && fields["sender_name"] == ownName
    ensures WrittenFields(fields, ownName) == fields
  {
  }

  /** The outcome of `write`: the template filled with the rewritten fields, or `AssertionError` when one of them is not a template field. */
  function WriteOutcome(fields: map<string, FieldValue>, templateFields: set<string>,
                        substitute: map<string, FieldValue> -> Result<string>): Result<string>
  {
    if fields.Keys <= templateFields then substitute(fields) else Err(AssertionError)
  }

  /**
   * `ReplyTo.write`: the fields dict is rewritten in place, checked against
   * the template's fields, then substituted into the template.
   */
  method Write(fields: SeqTools.PyDict<string, FieldValue>, ownName: FieldValue, templateFields: set<string>,
               substitute: map<string, FieldValue> -> Result<string>) returns (r: Result<string>)
    modifies fields
    ensures fields.data == WrittenFields(old(fields.data), ownName)
    ensures r == WriteOutcome(fields.data, templateFields, substitute)
  {
    var popped := SeqTools.DefaultPopDict(fields, Some("name"), ownName);
    fields.data := fields.data["sender_name" := popped.value];
    if !(fields.data.Keys <= templateFields) {
      return Err(AssertionError);
    }
    r := substitute(fields.data);
  }

  /** A drafted reply: the headers it sets on itself, the address and name it derives, and its body. */
  class ReplyTo {
    var sender: string
    var recipient: string
    var subject: string
    var address: string
    var name: seq<string>
    var payload: string

    constructor (sender: string, recipient: string, subject: string, address: string, name: seq<string>, payload: string)
      ensures this.sender == sender && this.recipient == recipient && this.subject == subject
      ensures this.address == address && this.name == name && this.payload == payload
    {
      this.sender := sender;
      this.recipient := recipient;
      this.subject := subject;
      this.address := address;
      this.name := name;
      this.payload := payload;
    }

    /**
     * `ReplyTo(msg, my_address, template, **template_fields)` when not
     * debugging: a missing Subject, Return-Path or From header makes a
     * step fail with `AttributeError`, and a failing `write` raises its
     * error; otherwise every header is derived from the message.
     */
    static method Create(msg: Headers, myAddress: string, templateFields: set<string>,
                         substitute: map<string, FieldValue> -> Result<string>,
                         templateValues: map<string, FieldValue>) returns (r: Result<ReplyTo>)
      ensures !("Subject" in msg && "Return-Path" in msg && "From" in msg) ==> r == Err(AttributeError)
      ensures "Subject" in msg && "Return-Path" in msg && "From" in msg ==>
        var name := GetName(msg["From"], msg["Return-Path"]);
        var written := WriteOutcome(WrittenFields(templateValues, Names(name)), templateFields, substitute);
        (written.Err? ==> r == Err(written.error)) &&
        (written.Ok? ==>
          (r.Ok? && fresh(r.value) &&
           r.value.sender == myAddress && r.value.recipient == msg["Return-Path"] &&
           r.value.subject == ReplySubject(msg["Subject"]) &&
           r.value.address == ReplyAddress(msg["Return-Path"]) &&
           r.value.name == name && r.value.payload == written.value))
    {
      if "Subject" !in msg || "Return-Path" !in msg || "From" !in msg {
        return Err(AttributeError);
      }
      var subject := ReplySubject(msg["Subject"]);
      var address := ReplyAddress(msg["Return-Path"]);
      var name := GetName(msg["From"], msg["Return-Path"]);
      var fields := new SeqTools.PyDict(templateValues);
      var written := Write(fields, Names(name), templateFields, substitute);
      if written.Err? {
        return Err(written.error);
      }
      var reply := new ReplyTo(myAddress, msg["Return-Path"], subject, address, name, written.value);
      r := Ok(reply);
    }
  }

  // ---------------------------------------------------------------------
  // Gmailer.get_emails_from
  // ---------------------------------------------------------------------

  /** Python truthiness of an optional string: present and not empty. */
  predicate Truthy(v: Option<string>) {
    v.Some? && |v.value| > 0
  }

  /** `f'"{value}"'`. */
  function Quoted(value: string): (q: string)
    ensures |q| == |value| + 2 && q[0] == '"' && q[|q| - 1] == '"' && q[1..|q| - 1] == value
  {
    "\"" + value + "\""
  }

  /**
   * The search criteria: an address given without a value searches FROM
   * that address; a value is searched for quoted after its key; without
   * either, the key alone.
   */
  function SearchFilters(address: Option<string>, key: string, value: Option<string>): (r: seq<string>)
    ensures 1 <= |r| <= 2
    ensures Truthy(value) ==> r == [key, Quoted(value.value)]
    ensures !Truthy(value) && Truthy(address) ==> r == ["FROM", Quoted(address.value)]
    ensures !Truthy(value) && !Truthy(address) ==> r == [key]
  {
    var (k, v) := if Truthy(address) && !Truthy(value) then ("FROM", address) else (key, value);
    if Truthy(v) then [k, Quoted(v.value)] else [k]
  }

  /**
   * The IDs fetched, in fetch order: `reversed(ids[-how_many:])` when
   * `how_many < len(ids)`, otherwise `reversed(ids)`.
   */
  function IdWindow<T>(ids: seq<T>, howMany: int): (r: seq<T>)
    ensures exists k :: 0 <= k <= |ids| && r == Reversed(ids[k..])
    ensures 0 < howMany < |ids| ==> r == Reversed(ids[|ids| - howMany..])
    ensures howMany >= |ids| || howMany == 0 ==> r == Reversed(ids)
    ensures howMany < 0 ==> r == Reversed(ids[if -howMany < |ids| then -howMany else |ids|..])
  {
    var kept := if howMany < |ids| then Slice(ids, -howMany, |ids|) else ids;
    assert kept == ids[if howMany < |ids| then SliceIndex(-howMany, |ids|) else 0..];
    Reversed(kept)
  }

  /** With a positive count, the window holds the newest `how_many` IDs, newest first. */
  lemma IdWindowNewestFirst<T>(ids: seq<T>, howMany: int)
    requires howMany > 0
    ensures var r := IdWindow(ids, howMany);
      |r| == if howMany < |ids| then howMany else |ids|
    ensures var r := IdWindow(ids, howMany);
      forall i :: 0 <= i < |r| ==> r[i] == ids[|ids| - 1 - i]
  {
  }

  /** `how_many=0` fetches every ID, because `ids[-0:]` is the whole list. */
  lemma IdWindowZeroKeepsAll<T>(ids: seq<T>)
    ensures IdWindow(ids, 0) == Reversed(ids)
  {
  }

  /**
   * `Peeler.core` of a search response `('OK', [ids])` picks the longest
   * leaf, the status included: with one single-digit ID, or with no match
   * at all, the status "OK" is taken for the ID list.
   */
  lemma ShortResponseGivesStatus(id: string)
    requires |id| <= 1
    ensures var response := SeqTools.Items([SeqTools.Leaf("OK"), SeqTools.Items([SeqTools.Leaf(id)])]);
      SeqTools.Core(response) == Ok("OK") && IdWindow(Words("OK", IsAsciiSpace), 1) == ["OK"]
  {
    var inner := SeqTools.Items([SeqTools.Leaf(id)]);
    var response := SeqTools.Items([SeqTools.Leaf("OK"), inner]);
    assert SeqTools.Peel(inner) == [id] by {
      assert SeqTools.PeelChildren(inner) == [[id]];
    }
    assert SeqTools.Peel(response) == ["OK", id] by {
      assert SeqTools.PeelChildren(response) == [["OK"], [id]];
      assert SeqTools.Flatten([["OK"], [id]]) == ["OK"] + SeqTools.Flatten([[id]]);
    }
    assert Words("OK", IsAsciiSpace) == ["OK"] by {
      assert !IsAsciiSpace('O') && !IsAsciiSpace('K');
      assert WordLength("K", IsAsciiSpace) == 1 by {
        assert "K"[1..] == [];
      }
      assert "OK"[1..] == "K";
      assert WordLength("OK", IsAsciiSpace) == 2;
      assert "OK"[2..] == [] && "OK"[..2] == "OK";
    }
  }

  /**
   * The selection in `get_emails_from`: the search filters are built, the
   * response is reduced to its longest fruit by `Peeler.core` and split at
   * whitespace into IDs, and the window of IDs is returned in the order
   * they are fetched. The IMAP search is the parameter `search`; an empty
   * response raises `IndexError`.
   */
  method GetEmailIds(search: seq<string> -> SeqTools.Nested<string>, address: Option<string>, key: string,
                     value: Option<string>, howMany: int) returns (r: Result<seq<string>>)
    ensures var found := SeqTools.Core(search(SearchFilters(address, key, value)));
      (found.Err? ==> r == Err(found.error)) &&
      (found.Ok? ==> r == Ok(IdWindow(Words(found.value, IsAsciiSpace), howMany)))
  {
    var k, v := key, value;
    if Truthy(address) && !Truthy(v) {
      k := "FROM";
      v := address;
    }
    var filters := if Truthy(v) then [k, Quoted(v.value)] else [k];
    var found := SeqTools.Core(search(filters));
    if found.Err? {
      return Err(found.error);
    }
    var ids := Words(found.value, IsAsciiSpace);
    if howMany < |ids| {
      ids := Slice(ids, -howMany, |ids|);
    }
    r := Ok(Reversed(ids));
  }
}
