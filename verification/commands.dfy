/** The request-building logic of the `comment`, `status` and `new`
    commands (cartman/app.py): which form a command posts, where, and how the
    server's answer is judged. Network calls, the editor and the page
    extractions are parameters: their results are given, not computed. */
module Commands {
  import opened Wrappers
  import opened Errors
  import opened Strings
  import opened OrderedMap
  import opened Text
  import opened TicketDraft

  /** A session cookie: (name, value). */
  type Cookie = (string, string)

  /** The cookie Trac keeps its form token in, and the form field it must be
      echoed back in. */
  const TokenCookie := "trac_form_token"
  const TokenField := "__FORM_TOKEN"

  /** A POST to `path` below the site's base URL with form `data`. */
  datatype Request = Post(path: string, data: map<string, string>)

  /** `_get_form_token`: the value of the first cookie named `TokenCookie`,
      or the empty string when there is none. */
  function FormToken(cookies: seq<Cookie>): (r: string)
    ensures (forall i :: 0 <= i < |cookies| ==> cookies[i].0 != TokenCookie) ==> r == ""
    ensures forall i :: (0 <= i < |cookies| && cookies[i].0 == TokenCookie &&
                         (forall j :: 0 <= j < i ==> cookies[j].0 != TokenCookie)) ==> r == cookies[i].1
    decreases |cookies|
  {
    if |cookies| == 0 then ""
    else if cookies[0].0 == TokenCookie then cookies[0].1
    else
      var r := FormToken(cookies[1..]);
      assert forall i :: 1 <= i < |cookies| ==> cookies[1..][i - 1] == cookies[i];
      r
  }

  /** `post`: non-empty form data gains the form token; empty data is sent
      as it is. No other field is touched. */
  function WithToken(data: map<string, string>, cookies: seq<Cookie>): (r: map<string, string>)
    ensures |data| == 0 ==> r == data
    ensures |data| > 0 ==> TokenField in r && r[TokenField] == FormToken(cookies)
    ensures r.Keys == if |data| == 0 then data.Keys else data.Keys + {TokenField}
    ensures forall k :: k in data && k != TokenField ==> r[k] == data[k]
  {
    if |data| > 0 then data[TokenField := FormToken(cookies)] else data
  }

  /** The path of a ticket's page. */
  function TicketPath(id: int): (r: string)
    ensures |r| > 8 && r[..8] == "/ticket/"
    ensures ParseInt(r[8..]) == Some(id)
  {
    var r := "/ticket/" + IntToString(id);
    assert r[8..] == IntToString(id);
    ParseIntRoundTrip(id);
    r
  }

  /** The form `run_comment` and `run_status` post to a ticket's page: the
      page's timestamp, an action and a comment, plus the form token. */
  function TicketUpdate(id: int, timestamp: string, action: string, comment: string,
                        cookies: seq<Cookie>): (r: Request)
    ensures r.path == TicketPath(id)
    ensures r.data.Keys == {"ts", "action", "comment", TokenField}
    ensures r.data["ts"] == timestamp && r.data["action"] == action && r.data["comment"] == comment
    ensures r.data[TokenField] == FormToken(cookies)
  {
    assert |"ts"| != |"action"| && |"ts"| != |"comment"| && |"action"| != |"comment"|;
    assert |TokenField| != |"ts"| && |TokenField| != |"action"| && |TokenField| != |"comment"|;
    var data := map["ts" := timestamp, "action" := action, "comment" := comment];
    assert "ts" in data;
    var full := WithToken(data, cookies);
    assert full == data[TokenField := FormToken(cookies)];
    assert full.Keys == {"ts", "action", "comment", TokenField};
    Post(TicketPath(id), full)
  }

  /** The comment a command sends: the `-m` message when one was given, else
      what the user typed in the editor. */
  function ChosenComment(message: string, editorText: string): (r: string)
    ensures r == message || r == editorText
    ensures message != "" ==> r == message
    ensures message == "" ==> r == editorText
  {
    if message != "" then message else editorText
  }

  const EmptyComment := FatalError("empty comment, cancelling")

  /** `run_comment` up to the POST: validate the id, choose the comment,
      refuse a blank one, and build the form that leaves it on the ticket. */
  function CommentRequest(rawId: string, timestamp: string, message: string, editorText: string,
                          cookies: seq<Cookie>): (r: Result<Request, Error>)
    ensures ValidateId(rawId).Failure? ==> r == Failure(ValidateId(rawId).error)
    ensures ValidateId(rawId).Success? ==>
              (r.Failure? <==> IsBlank(ChosenComment(message, editorText)))
    ensures r.Failure? && ValidateId(rawId).Success? ==> r.error == EmptyComment
    ensures r.Success? ==> ParseInt(rawId).Some? && r.value.path == TicketPath(ParseInt(rawId).value)
    ensures r.Success? ==> r.value.data.Keys == {"ts", "comment", "action", TokenField}
    ensures r.Success? ==> && r.value.data["ts"] == timestamp
                           && r.value.data["comment"] == ChosenComment(message, editorText)
                           && r.value.data["action"] == "leave"
                           && r.value.data[TokenField] == FormToken(cookies)
  {
    var id :- ValidateId(rawId);
    var comment := ChosenComment(message, editorText);
    StripEmptyIffBlank(comment);
    if Strip(comment) == "" then Failure(EmptyComment)
    else
      Success(TicketUpdate(id, timestamp, "leave", comment, cookies))
  }

  /** How a command judges the server's answer to its POST: an error page
      (one mentioning "system-message") or a status other than 200 fails with
      `failure`. */
  function CheckSaved(statusCode: int, content: string, failure: string): (r: Result<(), Error>)
    ensures r.Success? <==> statusCode == 200 && !Contains(content, "system-message")
    ensures r.Failure? ==> r.error == FatalError(failure)
  {
    if Contains(content, "system-message") || statusCode != 200 then Failure(FatalError(failure))
    else Success(())
  }

  /** What `run_status` does once the ticket page is read: list the statuses
      when no new one is asked for, else post the change. */
  datatype StatusAction =
    | ShowStatus(current: string, statuses: seq<string>)
    | SetStatus(request: Request)

  /** The error for a requested status that matches none of the ticket's. */
  function BadStatus(statuses: seq<string>): (e: Error)
    ensures e.FatalError?
    ensures forall i :: 0 <= i < |statuses| ==> Contains(e.message, statuses[i])
  {
    JoinContains(", ", statuses);
    forall i | 0 <= i < |statuses|
      ensures Contains("bad status (for this ticket: " + Join(", ", statuses) + ")", statuses[i])
    {
      ContainsWithin(Join(", ", statuses), "bad status (for this ticket: ", ")", statuses[i]);
    }
    FatalError("bad status (for this ticket: " + Join(", ", statuses) + ")")
  }

  /** `run_status` up to the POST. The requested status is resolved against
      the ticket's available actions; the comment is the `-m` message, else
      the editor's text when a comment was asked for, else empty. */
  function StatusRequest(similar: Similar, rawId: string, requested: string, timestamp: string,
                         statuses: seq<string>, current: string, message: string,
                         addComment: bool, editorText: string, cookies: seq<Cookie>): (r: Result<StatusAction, Error>)
    ensures ValidateId(rawId).Failure? ==> r == Failure(ValidateId(rawId).error)
    ensures ValidateId(rawId).Success? && requested == "" ==> r == Success(ShowStatus(current, statuses))
    ensures ValidateId(rawId).Success? && requested != "" ==>
              (r.Failure? <==> !Usable(FuzzyFind(similar, requested, statuses)))
    ensures r.Failure? && ValidateId(rawId).Success? ==> r.error == BadStatus(statuses)
    ensures ValidateId(rawId).Success? && requested != "" && r.Success? ==> r.value.SetStatus?
    ensures r.Success? && r.value.SetStatus? ==>
              && ParseInt(rawId).Some? && r.value.request.path == TicketPath(ParseInt(rawId).value)
              && r.value.request.data.Keys == {"ts", "action", "comment", TokenField}
              && r.value.request.data[TokenField] == FormToken(cookies)
              && r.value.request.data["action"] in statuses
              && r.value.request.data["action"] == FuzzyFind(similar, requested, statuses).value
              && r.value.request.data["ts"] == timestamp
              && r.value.request.data["comment"] == (if message != "" then message
                                                     else if addComment then editorText else "")
  {
    var id :- ValidateId(rawId);
    if requested == "" then Success(ShowStatus(current, statuses))
    else
      var found := FuzzyFind(similar, requested, statuses);
      if !Usable(found) then Failure(BadStatus(statuses))
      else
        var comment := if message != "" then message else if addComment then editorText else "";
        Success(SetStatus(TicketUpdate(id, timestamp, found.value, comment, cookies)))
  }

  /** The headers `run_new` reads into its form, in the order it reads them. */
  const FormHeaders: seq<string> := ["Subject", "Type", "Version", "Milestone", "Component", "To", "Keywords", "Cc"]

  /** `headers[name]`: a missing header fails the lookup. */
  function Lookup(h: Headers, name: string): (r: Result<string, Error>)
    ensures r.Success? <==> Get(h, name).Some?
    ensures r.Success? ==> Get(h, name) == Some(r.value)
    ensures r.Failure? ==> r.error == KeyError(name)
  {
    match Get(h, name)
    case None => Failure(KeyError(name))
    case Some(v) => Success(v)
  }

  /** The form `run_new` posts to /newticket: eight fields copied from the
      headers, the body as the description, and an empty attachment. */
  function NewTicketForm(h: Headers, body: string): (r: Result<map<string, string>, Error>)
    ensures r.Success? <==> forall i :: 0 <= i < |FormHeaders| ==> Get(h, FormHeaders[i]).Some?
  {
    assert FormHeaders[0] == "Subject" && FormHeaders[1] == "Type" && FormHeaders[2] == "Version";
    assert FormHeaders[3] == "Milestone" && FormHeaders[4] == "Component" && FormHeaders[5] == "To";
    assert FormHeaders[6] == "Keywords" && FormHeaders[7] == "Cc";
    var summary :- Lookup(h, "Subject");
    var kind :- Lookup(h, "Type");
    var version :- Lookup(h, "Version");
    var milestone :- Lookup(h, "Milestone");
    var component :- Lookup(h, "Component");
    var owner :- Lookup(h, "To");
    var keywords :- Lookup(h, "Keywords");
    var cc :- Lookup(h, "Cc");
    Success(map["field_summary" := summary, "field_type" := kind, "field_version" := version,
                "field_description" := body, "field_milestone" := milestone,
                "field_component" := component, "field_owner" := owner,
                "field_keywords" := keywords, "field_cc" := cc, "field_attachment" := ""])
  }

  /** The first header missing, in reading order, is the one the failed
      lookup names. */
  lemma NewTicketFormFirstMissing(h: Headers, body: string)
    requires NewTicketForm(h, body).Failure?
    ensures exists i :: 0 <= i < |FormHeaders| && NewTicketForm(h, body).error == KeyError(FormHeaders[i]) &&
                        Get(h, FormHeaders[i]).None? &&
                        forall j :: 0 <= j < i ==> Get(h, FormHeaders[j]).Some?
  {
    assert FormHeaders[0] == "Subject" && FormHeaders[1] == "Type" && FormHeaders[2] == "Version";
    assert FormHeaders[3] == "Milestone" && FormHeaders[4] == "Component" && FormHeaders[5] == "To";
    assert FormHeaders[6] == "Keywords" && FormHeaders[7] == "Cc";
  }

  /** The form `run_new` builds carries exactly ten fields, each copied from
      its header, the body or left empty; `post` then adds the form token
      (`WithToken`). */
  lemma NewTicketFormFields(h: Headers, body: string)
    requires NewTicketForm(h, body).Success?
    ensures var f := NewTicketForm(h, body).value;
            && f.Keys == {"field_summary", "field_type", "field_version", "field_description",
                          "field_milestone", "field_component", "field_owner",
                          "field_keywords", "field_cc", "field_attachment"}
            && Some(f["field_summary"]) == Get(h, "Subject")
            && Some(f["field_type"]) == Get(h, "Type")
            && Some(f["field_version"]) == Get(h, "Version")
            && Some(f["field_milestone"]) == Get(h, "Milestone")
            && Some(f["field_component"]) == Get(h, "Component")
            && Some(f["field_owner"]) == Get(h, "To")
            && Some(f["field_keywords"]) == Get(h, "Keywords")
            && Some(f["field_cc"]) == Get(h, "Cc")
            && f["field_description"] == body
            && f["field_attachment"] == ""
  {
    assert "field_summary"[6] != "field_version"[6];
    assert "field_milestone"[6] != "field_component"[6];
  }

  /** `url.split("/")[-1]`: the text after the last slash, or all of it. */
  function LastSegment(s: string): (r: string)
    ensures '/' !in r
    ensures |r| <= |s| && r == s[|s| - |r|..]
    ensures |r| < |s| ==> s[|s| - |r| - 1] == '/'
    decreases |s|
  {
    if |s| == 0 || s[|s| - 1] == '/' then ""
    else
      var r := LastSegment(s[..|s| - 1]) + [s[|s| - 1]];
      assert s[..|s| - 1][|s| - |r|..] + [s[|s| - 1]] == s[|s| - |r|..];
      r
  }

  const CreateFailed := RequestException("unable to create new ticket.")
  const BadTicketId := RequestException("returned ticket_id is invalid.")

  /** The end of `run_new`: a status other than 200 fails; otherwise the new
      ticket's id is the last path segment of the final URL, which must read
      as an integer. */
  function NewTicketId(statusCode: int, url: string): (r: Result<int, Error>)
    ensures statusCode != 200 ==> r == Failure(CreateFailed)
    ensures statusCode == 200 ==> (r.Success? <==> ParseInt(LastSegment(url)).Some?)
    ensures statusCode == 200 && r.Failure? ==> r.error == BadTicketId
    ensures r.Success? ==> ParseInt(LastSegment(url)) == Some(r.value)
  {
    if statusCode != 200 then Failure(CreateFailed)
    else
      match ParseInt(LastSegment(url))
      case None => Failure(BadTicketId)
      case Some(id) => Success(id)
  }

  /** The segment after the last slash is recovered exactly when it holds
      no slash itself. */
  lemma {:induction false} LastSegmentAfterSlash(a: string, b: string)
    requires '/' !in b
    ensures LastSegment(a + "/" + b) == b
    decreases |b|
  {
    var s := a + "/" + b;
    if |b| > 0 {
      var b' := b[..|b| - 1];
      var last := b[|b| - 1];
      assert b == b' + [last];
      assert s == (a + "/" + b') + [last];
      assert s[..|s| - 1] == a + "/" + b';
      LastSegmentAfterSlash(a, b');
    } else {
      assert s[|s| - 1] == '/';
    }
  }

  /** A ticket page URL yields back the id it was made from. */
  lemma NewTicketIdRoundTrip(base: string, id: int)
    ensures NewTicketId(200, base + TicketPath(id)) == Success(id)
  {
    var digits := IntToString(id);
    assert '/' !in digits;
    assert base + TicketPath(id) == (base + "/ticket") + "/" + digits;
    LastSegmentAfterSlash(base + "/ticket", digits);
    ParseIntRoundTrip(id);
  }

  lemma InitialHeaderNames(owner: string, username: string)
    ensures forall i :: 0 <= i < |FormHeaders| ==> FormHeaders[i] in Keys(InitialHeaders(owner, username))
  {
    var keys := Keys(InitialHeaders(owner, username));
    assert keys == ["Subject", "To", "Cc", "Milestone", "Component", "Priority", "Type", "Keywords", "Version"];
  }

  /** Whatever the user edits, a draft the loop accepts still carries every
      header the form reads, so building the form cannot fail. */
  lemma CreatedDraftHasForm(similar: Similar, required: seq<string>, owner: string, username: string,
                            rounds: seq<Round>)
    requires RunNew(similar, required, owner, username, rounds).Created?
    ensures var created := RunNew(similar, required, owner, username, rounds);
            NewTicketForm(created.headers, created.body).Success?
  {
    var created := RunNew(similar, required, owner, username, rounds);
    var keys := Keys(InitialHeaders(owner, username));
    InitialHeaderNames(owner, username);
    forall i | 0 <= i < |FormHeaders| ensures Get(created.headers, FormHeaders[i]).Some? {
      assert FormHeaders[i] in keys;
    }
  }

  /** `cm comment 1` with no `-m` message and an empty editor buffer is
      cancelled before anything is posted. */
  lemma CommentWithoutTextCancels(timestamp: string, cookies: seq<Cookie>)
    ensures CommentRequest("1", timestamp, "", "", cookies) == Failure(EmptyComment)
  {
    ValidateIdRoundTrip(1);
    assert IntToString(1) == "1";
  }

  /** `cm comment 1 -m "brilliant!"` leaves that comment on ticket 1,
      whatever the editor would have held. */
  lemma CommentWithMessage(timestamp: string, editorText: string, cookies: seq<Cookie>)
    ensures var r := CommentRequest("1", timestamp, "brilliant!", editorText, cookies);
            r.Success? && r.value.path == "/ticket/1" && r.value.data["comment"] == "brilliant!"
  {
    ValidateIdRoundTrip(1);
    assert IntToString(1) == "1";
    assert !IsSpace("brilliant!"[0]);
  }

  /** "reopen" resolves to itself among "reopen" and "close". */
  lemma ReopenFound(similar: Similar, requested: string, statuses: seq<string>)
    requires requested == "reopen" && statuses == ["reopen", "close"]
    requires similar("reopen", "reopen") && !similar("reopen", "close")
    ensures FuzzyFind(similar, requested, statuses) == Some("reopen")
  {
    LowerUnchanged(requested);
    LowerUnchanged(statuses[0]);
    LowerUnchanged(statuses[1]);
    assert forall o :: o in statuses ==> o == statuses[0] || o == statuses[1];
    assert IsCandidate(similar, requested, statuses, statuses[0]);
    assert !IsCandidate(similar, requested, statuses, statuses[1]);
    assert statuses[0][0] != statuses[1][0];
    OnlyCandidate(similar, requested, statuses, statuses[0]);
  }

  /** `cm status 1 reopen` on a ticket offering "reopen" and "close" posts
      the "reopen" action with an empty comment. */
  lemma StatusReopen(similar: Similar, rawId: string, requested: string, statuses: seq<string>,
                     timestamp: string, current: string, editorText: string, cookies: seq<Cookie>)
    requires rawId == "1" && requested == "reopen" && statuses == ["reopen", "close"]
    requires similar("reopen", "reopen") && !similar("reopen", "close")
    ensures var r := StatusRequest(similar, rawId, requested, timestamp, statuses, current, "", false,
                                   editorText, cookies);
            && r.Success? && r.value.SetStatus?
            && r.value.request.path == "/ticket/1"
            && r.value.request.data["action"] == "reopen"
            && r.value.request.data["comment"] == ""
  {
    assert ValidateId(rawId) == Success(1) by {
      ValidateIdRoundTrip(1);
      assert IntToString(1) == "1";
    }
    assert TicketPath(1) == "/ticket/1" by {
      assert IntToString(1) == "1";
    }
    ReopenFound(similar, requested, statuses);
  }
}
