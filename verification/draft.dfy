/** The ticket-creation loop of `run_new` (cartman/app.py): the draft's
    headers, merging the edited document back into them, and validating and
    correcting them against the server's option lists. */
module TicketDraft {
  import opened Wrappers
  import opened Errors
  import opened Strings
  import opened OrderedMap
  import opened Text
  import Seqs

  /** An ordered header dictionary: (name, value) entries. */
  type Headers = seq<(string, string)>

  /** `self.required_fields` as configured. */
  const RequiredFields: seq<string> := ["To", "Milestone", "Component", "Subject", "Priority"]

  /** `self.default_fields`: headers always written to the template. */
  const DefaultFields: seq<string> := ["To", "Cc", "Subject", "Component", "Milestone"]

  /** `fuzzy_match_fields`: headers corrected against the server's options. */
  const FuzzyFields: seq<string> := ["Milestone", "Component", "Type", "Version", "Priority"]

  /** The marker that flags a header as not filled in. */
  const ErrorMarker := "**ERROR**"

  /** The draft's starting headers; the owner defaults to the user name. */
  function InitialHeaders(owner: string, username: string): (h: Headers)
    ensures DistinctKeys(h)
    ensures Get(h, "To") == Some(if owner != "" then owner else username)
    ensures forall k :: k in FuzzyFields || k in DefaultFields || k in RequiredFields ==> k in Keys(h)
    ensures Get(h, "Subject") == Some("") && Get(h, "Cc") == Some("") && Get(h, "Keywords") == Some("")
    ensures Get(h, "Milestone") == Some("") && Get(h, "Component") == Some("") && Get(h, "Version") == Some("")
    ensures Get(h, "Priority") == Some("2") && Get(h, "Type") == Some("defect")
  {
    var h := [("Subject", ""), ("To", if owner != "" then owner else username), ("Cc", ""),
              ("Milestone", ""), ("Component", ""), ("Priority", "2"), ("Type", "defect"),
              ("Keywords", ""), ("Version", "")];
    assert Keys(h) == ["Subject", "To", "Cc", "Milestone", "Component", "Priority", "Type",
                       "Keywords", "Version"];
    GetAt(h, 0);
    GetAt(h, 2);
    GetAt(h, 3);
    GetAt(h, 4);
    GetAt(h, 5);
    GetAt(h, 6);
    GetAt(h, 7);
    GetAt(h, 8);
    h
  }

  /** The draft's starting body. */
  const InitialBody := "\n"

  /** Reading header `name` from a parsed message: the value of the first
      header whose name matches, ignoring case. */
  function MessageGet(message: Headers, name: string): (r: Option<string>)
    ensures name in Keys(message) ==> r.Some?
    ensures r.None? <==> forall i :: 0 <= i < |message| ==> !SameName(message[i].0, name)
    ensures r.Some? ==> exists i :: FirstNamed(message, name, i) && r.value == message[i].1
    decreases |message|
  {
    if |message| == 0 then None
    else if SameName(message[0].0, name) then
      assert FirstNamed(message, name, 0);
      Some(message[0].1)
    else
      var tail := message[1..];
      TailKeys(message, name);
      TailUnnamed(message, name);
      var r := MessageGet(tail, name);
      assert r.Some? ==> exists i :: FirstNamed(message, name, i) && r.value == message[i].1 by {
        if r.Some? {
          var i :| FirstNamed(tail, name, i) && r.value == tail[i].1;
          TailFirstNamed(message, name, i);
        }
      }
      r
  }

  /** Past a first entry of another name, `name` is a key of the message
      exactly when it is a key of the rest. */
  lemma TailKeys(message: Headers, name: string)
    requires |message| > 0 && !SameName(message[0].0, name)
    ensures name in Keys(message) <==> name in Keys(message[1..])
  {
    KeysCons(message[0], message[1..]);
    assert message == [message[0]] + message[1..];
  }

  /** Past a first entry of another name, no entry of the message is named
      `name` exactly when no entry of the rest is. */
  lemma TailUnnamed(message: Headers, name: string)
    requires |message| > 0 && !SameName(message[0].0, name)
    ensures (forall i :: 0 <= i < |message| ==> !SameName(message[i].0, name)) <==>
            (forall i :: 0 <= i < |message[1..]| ==> !SameName(message[1..][i].0, name))
  {
    var tail := message[1..];
    assert forall i :: 0 <= i < |tail| ==> tail[i] == message[i + 1];
  }

  /** Past a first entry of another name, the first entry named `name` in
      the rest is the first one in the message, one position later. */
  lemma TailFirstNamed(message: Headers, name: string, i: int)
    requires |message| > 0 && !SameName(message[0].0, name)
    requires FirstNamed(message[1..], name, i)
    ensures FirstNamed(message, name, i + 1) && message[i + 1] == message[1..][i]
  {
    var tail := message[1..];
    assert forall j :: 1 <= j < i + 1 ==> message[j] == tail[j - 1];
  }

  /** Header names are compared ignoring case. */
  predicate SameName(a: string, b: string) {
    Lower(a) == Lower(b)
  }

  /** Entry `i` is the first of `message` whose name is `name`. */
  predicate FirstNamed(message: Headers, name: string, i: int) {
    && 0 <= i < |message| && SameName(message[i].0, name)
    && forall j :: 0 <= j < i ==> !SameName(message[j].0, name)
  }

  /** `headers.update(em)` restricted to the first `n` headers of the parsed
      message: each name read from the message is assigned its value. */
  function MergePrefix(h: Headers, message: Headers, n: nat): (r: Headers)
    requires n <= |message|
    ensures forall k :: k in Keys(message[..n]) ==> Get(r, k) == MessageGet(message, k)
    ensures forall k :: k !in Keys(message[..n]) ==> Get(r, k) == Get(h, k)
    ensures DistinctKeys(h) ==> DistinctKeys(r)
    ensures forall k :: k in Keys(h) ==> k in Keys(r)
    decreases n
  {
    if n == 0 then h
    else
      var prev := MergePrefix(h, message, n - 1);
      var name := message[n - 1].0;
      KeysCons(message[n - 1], []);
      assert message[..n] == message[..n - 1] + [message[n - 1]];
      assert Keys(message[..n]) == Keys(message[..n - 1]) + [name];
      assert name in Keys(message);
      var v := MessageGet(message, name).value;
      PutKeys(prev, name, v);
      assert DistinctKeys(h) ==> DistinctKeys(Put(prev, name, v)) by {
        if DistinctKeys(h) { PutDistinct(prev, name, v); }
      }
      Put(prev, name, v)
  }

  /** `headers.update(em)`: every header named in the edited document is
      overwritten with what the document says; a header the user deleted
      keeps its previous draft value; no header is ever removed. */
  function Merge(h: Headers, message: Headers): (r: Headers)
    ensures forall k :: k in Keys(message) ==> Get(r, k) == MessageGet(message, k)
    ensures forall k :: k !in Keys(message) ==> Get(r, k) == Get(h, k)
    ensures DistinctKeys(h) ==> DistinctKeys(r)
    ensures forall k :: k in Keys(h) ==> k in Keys(r)
  {
    assert message[..|message|] == message;
    MergePrefix(h, message, |message|)
  }

  /** One complaint collected while validating the draft. */
  datatype Problem =
    | Blank(field: string)
    | Unexpected(field: string, options: seq<string>)

  /** The line printed for a problem: it names the field, and for an
      unexpected value it lists every option the server offers. */
  function Describe(p: Problem): (r: string)
    ensures Contains(r, p.field)
    ensures p.Unexpected? ==> forall i :: 0 <= i < |p.options| ==> Contains(r, p.options[i])
  {
    match p
    case Blank(field) =>
      ContainsSelf(field);
      ContainsWithin(field, "Invalid '", "': cannot be blank", field);
      "Invalid '" + field + "': cannot be blank"
    case Unexpected(field, options) =>
      var listed := Join(", ", options);
      ContainsSelf(field);
      ContainsWithin(field, "Invalid '", "': expected: " + listed, field);
      assert "Invalid '" + field + ("': expected: " + listed) == "Invalid '" + field + "': expected: " + listed;
      JoinContains(", ", options);
      assert forall i :: 0 <= i < |options| ==> Contains("Invalid '" + field + "': expected: " + listed, options[i]) by {
        forall i | 0 <= i < |options| ensures Contains("Invalid '" + field + "': expected: " + listed, options[i]) {
          ContainsWithin(listed, "Invalid '" + field + "': expected: ", "", options[i]);
          assert "Invalid '" + field + "': expected: " + listed + "" == "Invalid '" + field + "': expected: " + listed;
        }
      }
      "Invalid '" + field + "': expected: " + listed
  }

  /** A present header that is empty or still carries the error marker. */
  predicate Unfilled(v: Option<string>) {
    v.Some? && (v.value == "" || Contains(v.value, ErrorMarker))
  }

  /** The required-field check: every required field that is not corrected
      against the server's options must be present (else the lookup fails)
      and filled in; each unfilled one is reported once per listing. */
  function CheckRequired(h: Headers, required: seq<string>): (r: Result<seq<Problem>, Error>)
    ensures r.Success? <==> forall k :: k in required && k !in FuzzyFields ==> k in Keys(h)
    ensures r.Failure? ==> r.error.KeyError? && r.error.key in required && r.error.key !in Keys(h)
    ensures r.Success? ==> forall p :: p in r.value ==> p.Blank?
    ensures r.Success? ==> forall k :: multiset(r.value)[Blank(k)]
                                     == if k !in FuzzyFields && Unfilled(Get(h, k)) then multiset(required)[k] else 0
    decreases |required|
  {
    if |required| == 0 then Success([])
    else
      var key := required[0];
      assert required == [key] + required[1..];
      if key in FuzzyFields then CheckRequired(h, required[1..])
      else
        GetFound(h, key);
        match Get(h, key)
        case None => Failure(KeyError(key))
        case Some(v) =>
          var rest :- CheckRequired(h, required[1..]);
          Success((if v == "" || Contains(v, ErrorMarker) then [Blank(key)] else []) + rest)
  }

  /** A fuzzy match that the loop accepts: `if m:` rejects an empty match. */
  predicate Usable(m: Option<string>) {
    m.Some? && m.value != ""
  }

  /** The correction of one fuzzy field whose current value is `v`: the value
      it ends with, and the problem it raises, if any. */
  function Resolve(similar: Similar, key: string, v: string, options: seq<string>,
                   required: seq<string>): (r: (string, Option<Problem>))
    ensures v in options ==> r == (v, None)
    ensures v !in options && Usable(FuzzyFind(similar, v, options)) ==> r == (FuzzyFind(similar, v, options).value, None)
    ensures v !in options && !Usable(FuzzyFind(similar, v, options)) && key !in required ==> r == ("", None)
    ensures r.1.None? ==> r.0 in options || (r.0 == "" && key !in required)
    ensures r.1.Some? <==> v !in options && !Usable(FuzzyFind(similar, v, options)) && key in required
    ensures r.1.Some? ==> r == (v, Some(Unexpected(key, options)))
    ensures r.0 != v && r.0 != "" ==> FuzzyFind(similar, v, options) == Some(r.0)
  {
    if v in options then (v, None)
    else
      var m := FuzzyFind(similar, v, options);
      if Usable(m) then (m.value, None)
      else if key in required then (v, Some(Unexpected(key, options)))
      else ("", None)
  }

  /** `Resolve` over `fuzzy_find` exactly as `cartman/text.py` writes it
      (whether `cartman/app.py` imports that version is not certain, since it
      calls `extract_*` functions that file lacks): the loop stops with
      `NameError` whenever the value is not listed and no option is similar;
      otherwise it agrees with `Resolve`. */
  function ResolveAsWritten(similar: Similar, key: string, v: string, options: seq<string>,
                            required: seq<string>): (r: Result<(string, Option<Problem>), Error>)
    ensures r.Failure? <==> v !in options && |options| > 0 && !AnySimilar(similar, Lower(v), options)
    ensures r.Failure? ==> r.error == NameError("re")
    ensures r.Success? ==> r.value == Resolve(similar, key, v, options, required)
  {
    if v in options then Success((v, None))
    else
      AsWrittenRaisesOnFallback(similar, v, options);
      var m :- FuzzyFindAsWritten(similar, v, options);
      if Usable(m) then Success((m.value, None))
      else if key in required then Success((v, Some(Unexpected(key, options))))
      else Success(("", None))
  }

  /** Over `fuzzy_find` as `cartman/text.py` writes it, a fuzzy field left
      blank, as "Version", "Milestone" and "Component" start in the draft,
      would stop `run_new` with `NameError` as
      soon as the server offers options: the empty text is similar to no
      option (difflib's ratio of "" and a non-empty text is 0). */
  lemma BlankFieldRaisesAsWritten(similar: Similar, key: string, options: seq<string>, required: seq<string>)
    requires |options| > 0 && "" !in options
    requires forall o :: o in options ==> !similar("", Lower(o))
    ensures ResolveAsWritten(similar, key, "", options, required) == Failure(NameError("re"))
  {
    assert Lower("") == "";
  }

  /** `Resolve` applied to header `key` of `h` with the options `props` lists. */
  function FieldOutcome(similar: Similar, h: Headers, props: map<string, seq<string>>,
                        required: seq<string>, key: string): (string, Option<Problem>)
    requires Lower(key) in props && Get(h, key).Some?
  {
    Resolve(similar, key, Get(h, key).value, props[Lower(key)], required)
  }

  /** One iteration of the fuzzy-correction loop, for header `key`: only
      that header may change, to the value `Resolve` gives. */
  function CorrectOne(similar: Similar, h: Headers, props: map<string, seq<string>>,
                      required: seq<string>, key: string): (r: (Headers, Option<Problem>))
    requires Lower(key) in props && Get(h, key).Some?
    ensures Get(r.0, key) == Some(FieldOutcome(similar, h, props, required, key).0)
    ensures forall k :: k != key ==> Get(r.0, k) == Get(h, k)
    ensures r.1 == FieldOutcome(similar, h, props, required, key).1
  {
    var v := Get(h, key).value;
    var options := props[Lower(key)];
    var (nv, problem) := Resolve(similar, key, v, options, required);
    if v in options || problem.Some? then (h, problem) else (Put(h, key, nv), problem)
  }

  /** The fuzzy-correction loop over `fields`. A field whose value the
      options do not list is replaced by its unique fuzzy match, else reported
      when required, else cleared. A missing option list or header fails the
      lookup. */
  function CorrectFields(similar: Similar, h: Headers, props: map<string, seq<string>>,
                         required: seq<string>, fields: seq<string>): (r: Result<(Headers, seq<Problem>), Error>)
    requires Seqs.Distinct(fields)
    ensures r.Success? <==> forall k :: k in fields ==> Lower(k) in props && Get(h, k).Some?
    ensures r.Success? ==> forall k :: k !in fields ==> Get(r.value.0, k) == Get(h, k)
    decreases |fields|
  {
    if |fields| == 0 then Success((h, []))
    else
      var key := fields[0];
      var tail := fields[1..];
      assert forall k :: k in fields <==> k == key || k in tail;
      if Lower(key) !in props then Failure(KeyError(Lower(key)))
      else if Get(h, key).None? then Failure(KeyError(key))
      else
        var step := CorrectOne(similar, h, props, required, key);
        DistinctTail(fields);
        var rest := CorrectFields(similar, step.0, props, required, tail);
        if rest.Failure? then Failure(rest.error)
        else Success((rest.value.0, (if step.1.Some? then [step.1.value] else []) + rest.value.1))
  }

  /** The tail of a list without repeats has none either, and lacks the head. */
  lemma DistinctTail(fields: seq<string>)
    requires Seqs.Distinct(fields) && |fields| > 0
    ensures Seqs.Distinct(fields[1..]) && fields[0] !in fields[1..]
  {
    assert forall i :: 0 <= i < |fields| - 1 ==> fields[1..][i] == fields[i + 1];
  }

  /** Each field ends on the value `Resolve` gives for it. */
  lemma {:induction false} CorrectFieldsValues(similar: Similar, h: Headers, props: map<string, seq<string>>,
                                               required: seq<string>, fields: seq<string>)
    requires Seqs.Distinct(fields)
    requires CorrectFields(similar, h, props, required, fields).Success?
    ensures forall k :: k in fields ==>
              Get(CorrectFields(similar, h, props, required, fields).value.0, k) ==
              Some(FieldOutcome(similar, h, props, required, k).0)
    decreases |fields|
  {
    if |fields| > 0 {
      var key := fields[0];
      var tail := fields[1..];
      DistinctTail(fields);
      var step := CorrectOne(similar, h, props, required, key);
      CorrectFieldsValues(similar, step.0, props, required, tail);
      assert forall k :: k in fields <==> k == key || k in tail;
      assert forall k :: k in tail ==>
               FieldOutcome(similar, step.0, props, required, k) == FieldOutcome(similar, h, props, required, k);
    }
  }

  /** A failed correction names the option list or the header it could not
      find, for one of the fields. */
  lemma {:induction false} CorrectFieldsFailure(similar: Similar, h: Headers, props: map<string, seq<string>>,
                                                required: seq<string>, fields: seq<string>)
    requires Seqs.Distinct(fields)
    requires CorrectFields(similar, h, props, required, fields).Failure?
    ensures var e := CorrectFields(similar, h, props, required, fields).error;
            exists k :: k in fields &&
              ((Lower(k) !in props && e == KeyError(Lower(k))) || (Get(h, k).None? && e == KeyError(k)))
    decreases |fields|
  {
    var key := fields[0];
    var tail := fields[1..];
    if Lower(key) in props && Get(h, key).Some? {
      DistinctTail(fields);
      var step := CorrectOne(similar, h, props, required, key);
      CorrectFieldsFailure(similar, step.0, props, required, tail);
      var e := CorrectFields(similar, step.0, props, required, tail).error;
      var k :| k in tail &&
               ((Lower(k) !in props && e == KeyError(Lower(k))) || (Get(step.0, k).None? && e == KeyError(k)));
      assert k in fields && Get(step.0, k) == Get(h, k);
    }
  }

  /** The problems reported are exactly those of the fields, one each at
      most. */
  lemma {:induction false} CorrectFieldsProblems(similar: Similar, h: Headers, props: map<string, seq<string>>,
                                                 required: seq<string>, fields: seq<string>)
    requires Seqs.Distinct(fields)
    requires CorrectFields(similar, h, props, required, fields).Success?
    ensures forall p :: p in CorrectFields(similar, h, props, required, fields).value.1 <==>
              exists k :: k in fields && FieldOutcome(similar, h, props, required, k).1 == Some(p)
    decreases |fields|
  {
    if |fields| > 0 {
      var key := fields[0];
      var tail := fields[1..];
      DistinctTail(fields);
      var step := CorrectOne(similar, h, props, required, key);
      CorrectFieldsProblems(similar, step.0, props, required, tail);
      assert forall k :: k in fields <==> k == key || k in tail;
      assert forall k :: k in tail ==>
               FieldOutcome(similar, step.0, props, required, k) == FieldOutcome(similar, h, props, required, k);
    }
  }

  /** What the loop demands before it submits: every required field outside
      the fuzzy set is present and filled in, and every fuzzy field holds one
      of the server's options, or is empty when it is optional. */
  predicate Valid(h: Headers, props: map<string, seq<string>>, required: seq<string>) {
    && (forall k :: k in required && k !in FuzzyFields ==> Get(h, k).Some? && !Unfilled(Get(h, k)))
    && (forall k :: k in FuzzyFields ==>
          && Lower(k) in props && Get(h, k).Some?
          && (Get(h, k).value in props[Lower(k)] || (k !in required && Get(h, k).value == "")))
  }

  lemma FuzzyFieldsDistinct()
    ensures Seqs.Distinct(FuzzyFields)
  {
  }

  /** The fuzzy-correction loop over `FuzzyFields`, as one pass runs it. */
  function CorrectFuzzy(similar: Similar, h: Headers, props: map<string, seq<string>>,
                        required: seq<string>): Result<(Headers, seq<Problem>), Error>
  {
    FuzzyFieldsDistinct();
    CorrectFields(similar, h, props, required, FuzzyFields)
  }

  /** One pass of the loop after the editor returns: merge the edited
      document into the draft, check the required fields, then correct the
      fuzzy fields; problems from both checks are collected together. */
  function Validate(similar: Similar, h: Headers, message: Headers, props: map<string, seq<string>>,
                    required: seq<string>): (r: Result<(Headers, seq<Problem>), Error>)
    ensures r.Success? ==> forall k :: k !in FuzzyFields ==> Get(r.value.0, k) == Get(Merge(h, message), k)
    ensures r.Success? ==> forall k :: Get(h, k).Some? ==> Get(r.value.0, k).Some?
    ensures r.Failure? ==>
              || (exists k :: k in FuzzyFields && Lower(k) !in props && r.error == KeyError(Lower(k)))
              || (exists k :: (k in FuzzyFields || k in required) && Get(h, k).None? && r.error == KeyError(k))
    ensures r.Success? ==>
              && CheckRequired(Merge(h, message), required).Success?
              && CorrectFuzzy(similar, Merge(h, message), props, required).Success?
              && r.value.1 == CheckRequired(Merge(h, message), required).value
                              + CorrectFuzzy(similar, Merge(h, message), props, required).value.1
  {
    FuzzyFieldsDistinct();
    var merged := Merge(h, message);
    assert forall k :: Get(h, k).Some? ==> Get(merged, k).Some? by {
      forall k | Get(h, k).Some? ensures Get(merged, k).Some? {
        GetFound(h, k);
        GetFound(merged, k);
      }
    }
    var checked := CheckRequired(merged, required);
    if checked.Failure? then
      GetFound(merged, checked.error.key);
      Failure(checked.error)
    else
    var blanks := checked.value;
    var corrected := CorrectFields(similar, merged, props, required, FuzzyFields);
    if corrected.Failure? then
      CorrectFieldsFailure(similar, merged, props, required, FuzzyFields);
      Failure(corrected.error)
    else
    var fixed := corrected.value;
    CorrectFieldsValues(similar, merged, props, required, FuzzyFields);
    Success((fixed.0, blanks + fixed.1))
  }

  /** A pass collects every problem instead of stopping at the first: one
      blank report per listing of each unfilled required field of the merged
      draft, and the problem of every fuzzy field that has one; each fuzzy
      field ends on its corrected value. */
  lemma ValidateReport(similar: Similar, h: Headers, message: Headers, props: map<string, seq<string>>,
                       required: seq<string>)
    requires Validate(similar, h, message, props, required).Success?
    ensures var r := Validate(similar, h, message, props, required).value;
            forall k :: k in FuzzyFields ==>
              && Lower(k) in props && Get(Merge(h, message), k).Some?
              && Get(r.0, k) == Some(FieldOutcome(similar, Merge(h, message), props, required, k).0)
    ensures var r := Validate(similar, h, message, props, required).value;
            forall k :: multiset(r.1)[Blank(k)] ==
              (if k !in FuzzyFields && Unfilled(Get(Merge(h, message), k)) then multiset(required)[k] else 0)
    ensures var r := Validate(similar, h, message, props, required).value;
            forall p: Problem :: p.Unexpected? ==>
              (p in r.1 <==>
                 exists k :: k in FuzzyFields && FieldOutcome(similar, Merge(h, message), props, required, k).1 == Some(p))
  {
    FuzzyFieldsDistinct();
    var merged := Merge(h, message);
    var r := Validate(similar, h, message, props, required).value;
    var fixed := CorrectFields(similar, merged, props, required, FuzzyFields);
    assert fixed == CorrectFuzzy(similar, merged, props, required);
    ReportParts(similar, merged, props, required, CheckRequired(merged, required).value, fixed.value);
    assert r.0 == fixed.value.0;
  }

  /** The report of a pass over `merged`: the blank report followed by the
      fuzzy report. */
  lemma ReportParts(similar: Similar, merged: Headers, props: map<string, seq<string>>, required: seq<string>,
                    blanks: seq<Problem>, fixed: (Headers, seq<Problem>))
    requires Seqs.Distinct(FuzzyFields)
    requires CheckRequired(merged, required) == Success(blanks)
    requires CorrectFields(similar, merged, props, required, FuzzyFields) == Success(fixed)
    ensures forall k :: k in FuzzyFields ==>
              && Lower(k) in props && Get(merged, k).Some?
              && Get(fixed.0, k) == Some(FieldOutcome(similar, merged, props, required, k).0)
    ensures forall k :: multiset(blanks + fixed.1)[Blank(k)] ==
              (if k !in FuzzyFields && Unfilled(Get(merged, k)) then multiset(required)[k] else 0)
    ensures forall p: Problem :: p.Unexpected? ==>
              (p in blanks + fixed.1 <==>
                 exists k :: k in FuzzyFields && FieldOutcome(similar, merged, props, required, k).1 == Some(p))
  {
    CorrectFieldsValues(similar, merged, props, required, FuzzyFields);
    CorrectFieldsProblems(similar, merged, props, required, FuzzyFields);
    assert forall p :: p in fixed.1 ==> p.Unexpected?;
    forall k ensures multiset(blanks + fixed.1)[Blank(k)] == multiset(blanks)[Blank(k)] {
      assert Blank(k) !in fixed.1;
    }
  }

  /** No blank report means every checked required field is filled in. */
  lemma NoBlanks(h: Headers, required: seq<string>)
    requires CheckRequired(h, required) == Success([])
    ensures forall k :: k in required && k !in FuzzyFields ==> Get(h, k).Some? && !Unfilled(Get(h, k))
  {
    forall k | k in required && k !in FuzzyFields
      ensures Get(h, k).Some? && !Unfilled(Get(h, k))
    {
      GetFound(h, k);
      assert multiset(required)[k] > 0;
      var none: seq<Problem> := [];
      assert multiset(none)[Blank(k)] == 0;
    }
  }

  /** No fuzzy report means every fuzzy field ends on an option, or empty
      when it is optional. */
  lemma NoFuzzyProblems(similar: Similar, h: Headers, props: map<string, seq<string>>, required: seq<string>)
    requires Seqs.Distinct(FuzzyFields)
    requires CorrectFields(similar, h, props, required, FuzzyFields).Success?
    requires CorrectFields(similar, h, props, required, FuzzyFields).value.1 == []
    ensures var fixed := CorrectFields(similar, h, props, required, FuzzyFields).value.0;
            forall k :: k in FuzzyFields ==>
              && Lower(k) in props && Get(fixed, k).Some?
              && (Get(fixed, k).value in props[Lower(k)] || (k !in required && Get(fixed, k).value == ""))
  {
    var fixed := CorrectFields(similar, h, props, required, FuzzyFields).value.0;
    CorrectFieldsProblems(similar, h, props, required, FuzzyFields);
    CorrectFieldsValues(similar, h, props, required, FuzzyFields);
    forall k | k in FuzzyFields
      ensures Lower(k) in props && Get(fixed, k).Some?
      ensures Get(fixed, k).value in props[Lower(k)] || (k !in required && Get(fixed, k).value == "")
    {
      assert FieldOutcome(similar, h, props, required, k).1.None?;
    }
  }

  /** A pass that reports nothing leaves a draft the server will accept. */
  lemma ValidateSound(similar: Similar, h: Headers, message: Headers, props: map<string, seq<string>>,
                      required: seq<string>)
    requires Validate(similar, h, message, props, required).Success?
    requires Validate(similar, h, message, props, required).value.1 == []
    ensures Valid(Validate(similar, h, message, props, required).value.0, props, required)
  {
    FuzzyFieldsDistinct();
    var merged := Merge(h, message);
    var blanks := CheckRequired(merged, required).value;
    var fixed := CorrectFields(similar, merged, props, required, FuzzyFields).value;
    assert Validate(similar, h, message, props, required).value == (fixed.0, blanks + fixed.1);
    assert blanks == [] && fixed.1 == [];
    NoBlanks(merged, required);
    NoFuzzyProblems(similar, merged, props, required);
  }

  /** Filled-in required fields produce no blank report. */
  lemma {:induction false} FilledNoBlanks(h: Headers, required: seq<string>)
    requires forall k :: k in required && k !in FuzzyFields ==> Get(h, k).Some? && !Unfilled(Get(h, k))
    ensures CheckRequired(h, required) == Success([])
    decreases |required|
  {
    if |required| > 0 {
      assert forall k :: k in required[1..] ==> k in required;
      FilledNoBlanks(h, required[1..]);
      GetFound(h, required[0]);
    }
  }

  /** Fields whose values are options already, or optional, are left as
      they are and produce no report. */
  lemma {:induction false} ResolvedNoProblems(similar: Similar, h: Headers, props: map<string, seq<string>>,
                           required: seq<string>, fields: seq<string>)
    requires Seqs.Distinct(fields)
    requires forall k :: k in fields ==>
               && Lower(k) in props && Get(h, k).Some?
               && (Get(h, k).value in props[Lower(k)] || k !in required)
    ensures CorrectFields(similar, h, props, required, fields).Success?
    ensures CorrectFields(similar, h, props, required, fields).value.1 == []
    decreases |fields|
  {
    if |fields| > 0 {
      var key := fields[0];
      var tail := fields[1..];
      assert forall k :: k in tail ==> k in fields && k != key;
      assert Seqs.Distinct(tail);
      var step := CorrectOne(similar, h, props, required, key);
      assert step.1.None?;
      ResolvedNoProblems(similar, step.0, props, required, tail);
    }
  }

  /** A merged draft that already meets the demands passes without a
      report. */
  lemma ValidateComplete(similar: Similar, h: Headers, message: Headers, props: map<string, seq<string>>,
                         required: seq<string>)
    requires Valid(Merge(h, message), props, required)
    ensures Validate(similar, h, message, props, required).Success?
    ensures Validate(similar, h, message, props, required).value.1 == []
  {
    FuzzyFieldsDistinct();
    var merged := Merge(h, message);
    FilledNoBlanks(merged, required);
    ResolvedNoProblems(similar, merged, props, required, FuzzyFields);
  }

  /** One trip through the editor: the option lists fetched before it, the
      headers and body parsed from the saved document, and whether the user
      pressed ^C at the prompt that follows a report. */
  datatype Round = Round(props: map<string, seq<string>>, message: Headers, body: string, interrupted: bool)

  /** Where the loop stands after the rounds so far. */
  datatype Outcome =
    | Created(headers: Headers, body: string)
    | Aborted(error: Error)
    | Editing(headers: Headers, body: string)

  const Interrupted := FatalError("ticket creation interrupted")

  /** Why the loop may abort: ^C at the prompt of some round, an option
      list some round lacks, or a demanded header the starting draft lacks. */
  ghost predicate AbortCause(e: Error, required: seq<string>, h: Headers, rounds: seq<Round>) {
    || (e == Interrupted && exists i :: 0 <= i < |rounds| && rounds[i].interrupted)
    || (exists i, k :: 0 <= i < |rounds| && k in FuzzyFields &&
                       Lower(k) !in rounds[i].props && e == KeyError(Lower(k)))
    || (exists k :: (k in FuzzyFields || k in required) && Get(h, k).None? && e == KeyError(k))
  }

  /** The `while not valid` loop of `run_new`, driven by a sequence of
      rounds: a clean pass ends it with the corrected headers; a pass with
      problems either continues with the corrected headers or, on ^C, aborts;
      a failed lookup aborts. */
  function RunRounds(similar: Similar, required: seq<string>, h: Headers, body: string,
                     rounds: seq<Round>): (r: Outcome)
    ensures !r.Aborted? ==> forall k :: Get(h, k).Some? ==> Get(r.headers, k).Some?
    ensures r.Aborted? ==> AbortCause(r.error, required, h, rounds)
    decreases |rounds|
  {
    if |rounds| == 0 then Editing(h, body)
    else
      var round := rounds[0];
      var pass := Validate(similar, h, round.message, round.props, required);
      if pass.Failure? then Aborted(pass.error)
      else if pass.value.1 == [] then Created(pass.value.0, round.body)
      else if round.interrupted then
        assert rounds[0].interrupted;
        Aborted(Interrupted)
      else
        var r := RunRounds(similar, required, pass.value.0, round.body, rounds[1..]);
        if r.Aborted? then
          AbortCauseEarlier(r.error, required, h, pass.value.0, rounds);
          r
        else r
  }

  /** A cause of abort found after the first round is one for the whole
      loop, as the draft only gains headers on the way. */
  lemma AbortCauseEarlier(e: Error, required: seq<string>, h: Headers, h': Headers, rounds: seq<Round>)
    requires |rounds| > 0
    requires forall k :: Get(h, k).Some? ==> Get(h', k).Some?
    requires AbortCause(e, required, h', rounds[1..])
    ensures AbortCause(e, required, h, rounds)
  {
    if e == Interrupted && exists i :: 0 <= i < |rounds[1..]| && rounds[1..][i].interrupted {
      var i :| 0 <= i < |rounds[1..]| && rounds[1..][i].interrupted;
      assert rounds[i + 1].interrupted;
    } else {
      if exists i, k :: 0 <= i < |rounds[1..]| && k in FuzzyFields &&
                        Lower(k) !in rounds[1..][i].props && e == KeyError(Lower(k)) {
        var i, k :| 0 <= i < |rounds[1..]| && k in FuzzyFields &&
                    Lower(k) !in rounds[1..][i].props && e == KeyError(Lower(k));
        assert rounds[1..][i] == rounds[i + 1];
      }
    }
  }

  /** A draft the loop accepts meets the demands of the option lists of
      the round that accepted it, and carries that round's body. */
  lemma {:induction false} RunRoundsCreated(similar: Similar, required: seq<string>, h: Headers, body: string,
                                            rounds: seq<Round>)
    requires RunRounds(similar, required, h, body, rounds).Created?
    ensures var r := RunRounds(similar, required, h, body, rounds);
            exists i :: 0 <= i < |rounds| && r.body == rounds[i].body && Valid(r.headers, rounds[i].props, required)
    decreases |rounds|
  {
    var round := rounds[0];
    var pass := Validate(similar, h, round.message, round.props, required);
    if pass.value.1 == [] {
      ValidateSound(similar, h, round.message, round.props, required);
      assert Valid(pass.value.0, rounds[0].props, required);
    } else {
      var later := rounds[1..];
      RunRoundsCreated(similar, required, pass.value.0, round.body, later);
      var r := RunRounds(similar, required, pass.value.0, round.body, later);
      var i :| 0 <= i < |later| && r.body == later[i].body && Valid(r.headers, later[i].props, required);
      assert later[i] == rounds[i + 1];
    }
  }

  /** The passes of every round, as if the loop never stopped: each round is
      validated against the draft the previous successful pass handed on. */
  function Passes(similar: Similar, required: seq<string>, h: Headers, rounds: seq<Round>):
    (ps: seq<Result<(Headers, seq<Problem>), Error>>)
    ensures |ps| == |rounds|
    ensures |rounds| > 0 ==> ps[0] == Validate(similar, h, rounds[0].message, rounds[0].props, required)
    decreases |rounds|
  {
    if |rounds| == 0 then []
    else
      var pass := Validate(similar, h, rounds[0].message, rounds[0].props, required);
      [pass] + Passes(similar, required, if pass.Success? then pass.value.0 else h, rounds[1..])
  }

  /** After a round with this pass the user is sent back to the editor: the
      pass found problems and the user did not press ^C. */
  predicate GoesBack(pass: Result<(Headers, seq<Problem>), Error>, round: Round) {
    pass.Success? && pass.value.1 != [] && !round.interrupted
  }

  /** The loop reaches round `i`: every earlier round went back to the
      editor. */
  predicate ReachesRound(ps: seq<Result<(Headers, seq<Problem>), Error>>, rounds: seq<Round>, i: nat)
    requires |ps| == |rounds| && i <= |rounds|
  {
    forall j :: 0 <= j < i ==> GoesBack(ps[j], rounds[j])
  }

  /** Round `i` is reached and its pass is clean: `valid` stays true. */
  predicate Accepts(ps: seq<Result<(Headers, seq<Problem>), Error>>, rounds: seq<Round>, i: nat)
    requires |ps| == |rounds| && i < |rounds|
  {
    ReachesRound(ps, rounds, i) && ps[i].Success? && ps[i].value.1 == []
  }

  /** How the loop leaves at a round that does not go back to the editor: a
      failed lookup aborts, a clean pass creates, and otherwise the user
      pressed ^C. */
  function LeaveAt(pass: Result<(Headers, seq<Problem>), Error>, round: Round): Outcome {
    if pass.Failure? then Aborted(pass.error)
    else if pass.value.1 == [] then Created(pass.value.0, round.body)
    else Aborted(Interrupted)
  }

  /** Reaching round `i` of the loop past its first round is reaching round
      `i - 1` of the rest. */
  lemma ReachesTail(ps: seq<Result<(Headers, seq<Problem>), Error>>, rounds: seq<Round>, i: nat)
    requires |ps| == |rounds| && 0 < i <= |rounds|
    ensures ReachesRound(ps, rounds, i) <==> GoesBack(ps[0], rounds[0]) && ReachesRound(ps[1..], rounds[1..], i - 1)
  {
    assert forall j :: 0 <= j < i - 1 ==> ps[1..][j] == ps[j + 1] && rounds[1..][j] == rounds[j + 1];
    if GoesBack(ps[0], rounds[0]) && ReachesRound(ps[1..], rounds[1..], i - 1) {
      forall j | 0 < j < i ensures GoesBack(ps[j], rounds[j]) {
        assert GoesBack(ps[1..][j - 1], rounds[1..][j - 1]);
      }
    }
  }

  /** A loop that does not reach round `n` has a first round that leaves
      it. */
  lemma {:induction false} FirstLeave(ps: seq<Result<(Headers, seq<Problem>), Error>>, rounds: seq<Round>, n: nat)
      returns (i: nat)
    requires |ps| == |rounds| && n <= |rounds| && !ReachesRound(ps, rounds, n)
    ensures i < n && ReachesRound(ps, rounds, i) && !GoesBack(ps[i], rounds[i])
    decreases n
  {
    if ReachesRound(ps, rounds, n - 1) {
      i := n - 1;
    } else {
      i := FirstLeave(ps, rounds, n - 1);
    }
  }

  /** The loop ends where the first round that does not go back to the
      editor leaves it. */
  lemma {:induction false} RunRoundsLeaves(similar: Similar, required: seq<string>, h: Headers, body: string,
                                           rounds: seq<Round>, i: nat)
    requires i < |rounds|
    requires ReachesRound(Passes(similar, required, h, rounds), rounds, i)
    requires !GoesBack(Passes(similar, required, h, rounds)[i], rounds[i])
    ensures RunRounds(similar, required, h, body, rounds) == LeaveAt(Passes(similar, required, h, rounds)[i], rounds[i])
    decreases i
  {
    var ps := Passes(similar, required, h, rounds);
    if i > 0 {
      ReachesTail(ps, rounds, i);
      var h' := ps[0].value.0;
      assert ps[1..] == Passes(similar, required, h', rounds[1..]);
      RunRoundsLeaves(similar, required, h', rounds[0].body, rounds[1..], i - 1);
      assert ps[1..][i - 1] == ps[i] && rounds[1..][i - 1] == rounds[i];
    }
  }

  /** When every round goes back to the editor, the loop is still editing,
      with the last round's body. */
  lemma {:induction false} RunRoundsRunsOut(similar: Similar, required: seq<string>, h: Headers, body: string,
                                            rounds: seq<Round>)
    requires ReachesRound(Passes(similar, required, h, rounds), rounds, |rounds|)
    ensures var r := RunRounds(similar, required, h, body, rounds);
            r.Editing? && r.body == (if |rounds| == 0 then body else rounds[|rounds| - 1].body)
    decreases |rounds|
  {
    var ps := Passes(similar, required, h, rounds);
    if |rounds| > 0 {
      ReachesTail(ps, rounds, |rounds|);
      var h' := ps[0].value.0;
      assert ps[1..] == Passes(similar, required, h', rounds[1..]);
      RunRoundsRunsOut(similar, required, h', rounds[0].body, rounds[1..]);
      if |rounds| > 1 {
        assert rounds[1..][|rounds| - 2] == rounds[|rounds| - 1];
      }
    }
  }

  /** The loop creates the ticket exactly when some round it reaches passes
      clean, and then with that pass's headers and that round's body. */
  lemma RunRoundsAccepts(similar: Similar, required: seq<string>, h: Headers, body: string, rounds: seq<Round>)
    ensures var ps := Passes(similar, required, h, rounds);
            RunRounds(similar, required, h, body, rounds).Created? <==>
            exists i :: 0 <= i < |rounds| && Accepts(ps, rounds, i)
    ensures var ps := Passes(similar, required, h, rounds);
            forall i :: 0 <= i < |rounds| && Accepts(ps, rounds, i) ==>
              RunRounds(similar, required, h, body, rounds) == Created(ps[i].value.0, rounds[i].body)
  {
    var ps := Passes(similar, required, h, rounds);
    var r := RunRounds(similar, required, h, body, rounds);
    forall i | 0 <= i < |rounds| && Accepts(ps, rounds, i)
      ensures r == Created(ps[i].value.0, rounds[i].body)
    {
      RunRoundsLeaves(similar, required, h, body, rounds, i);
    }
    if r.Created? {
      if ReachesRound(ps, rounds, |rounds|) {
        RunRoundsRunsOut(similar, required, h, body, rounds);
      } else {
        var i := FirstLeave(ps, rounds, |rounds|);
        RunRoundsLeaves(similar, required, h, body, rounds, i);
        assert Accepts(ps, rounds, i);
      }
    }
  }

  /** The loop stops on ^C exactly when some round it reaches finds
      problems and the user presses ^C at the prompt. */
  lemma RunRoundsInterrupted(similar: Similar, required: seq<string>, h: Headers, body: string, rounds: seq<Round>)
    ensures var ps := Passes(similar, required, h, rounds);
            RunRounds(similar, required, h, body, rounds) == Aborted(Interrupted) <==>
            exists i :: && 0 <= i < |rounds| && ReachesRound(ps, rounds, i)
                        && ps[i].Success? && ps[i].value.1 != [] && rounds[i].interrupted
  {
    var ps := Passes(similar, required, h, rounds);
    var r := RunRounds(similar, required, h, body, rounds);
    if exists i :: && 0 <= i < |rounds| && ReachesRound(ps, rounds, i)
                   && ps[i].Success? && ps[i].value.1 != [] && rounds[i].interrupted {
      var i :| && 0 <= i < |rounds| && ReachesRound(ps, rounds, i)
               && ps[i].Success? && ps[i].value.1 != [] && rounds[i].interrupted;
      RunRoundsLeaves(similar, required, h, body, rounds, i);
    }
    if r == Aborted(Interrupted) {
      if ReachesRound(ps, rounds, |rounds|) {
        RunRoundsRunsOut(similar, required, h, body, rounds);
      } else {
        var i := FirstLeave(ps, rounds, |rounds|);
        RunRoundsLeaves(similar, required, h, body, rounds, i);
        PassFailsOnLookup(similar, required, h, rounds, i);
      }
    }
  }

  /** A pass of the loop fails only on a missing key, never with ^C. */
  lemma PassFailsOnLookup(similar: Similar, required: seq<string>, h: Headers, rounds: seq<Round>, i: nat)
    requires i < |rounds|
    ensures var ps := Passes(similar, required, h, rounds);
            ps[i].Failure? ==> ps[i].error.KeyError?
    decreases i
  {
    var ps := Passes(similar, required, h, rounds);
    if i > 0 {
      var h' := if ps[0].Success? then ps[0].value.0 else h;
      assert ps[1..] == Passes(similar, required, h', rounds[1..]);
      PassFailsOnLookup(similar, required, h', rounds[1..], i - 1);
      assert ps[1..][i - 1] == ps[i];
    }
  }

  /** `run_new` up to the submission: the loop started from the initial
      draft. A created ticket meets the demands of the last round's option
      lists and still carries every initial header; the loop aborts only on
      ^C, when the server lacks an option list, or on a configured required
      field that the initial draft does not carry. */
  function RunNew(similar: Similar, required: seq<string>, owner: string, username: string,
                  rounds: seq<Round>): (r: Outcome)
    ensures r.Created? ==> exists i :: 0 <= i < |rounds| &&
                             r.body == rounds[i].body && Valid(r.headers, rounds[i].props, required)
    ensures r.Created? ==> forall k :: k in Keys(InitialHeaders(owner, username)) ==> Get(r.headers, k).Some?
    ensures r.Aborted? ==>
              || (r.error == Interrupted && exists i :: 0 <= i < |rounds| && rounds[i].interrupted)
              || (exists i, k :: 0 <= i < |rounds| && k in FuzzyFields &&
                                 Lower(k) !in rounds[i].props && r.error == KeyError(Lower(k)))
              || (exists k :: k in required && k !in Keys(InitialHeaders(owner, username)) && r.error == KeyError(k))
    ensures var ps := Passes(similar, required, InitialHeaders(owner, username), rounds);
            r.Created? <==> exists i :: 0 <= i < |rounds| && Accepts(ps, rounds, i)
    ensures var ps := Passes(similar, required, InitialHeaders(owner, username), rounds);
            forall i :: 0 <= i < |rounds| && Accepts(ps, rounds, i) ==> r == Created(ps[i].value.0, rounds[i].body)
  {
    var h := InitialHeaders(owner, username);
    forall k ensures k in Keys(h) <==> Get(h, k).Some? {
      GetFound(h, k);
    }
    var r := RunRounds(similar, required, h, InitialBody, rounds);
    RunRoundsAccepts(similar, required, h, InitialBody, rounds);
    if r.Created? then
      RunRoundsCreated(similar, required, h, InitialBody, rounds);
      r
    else if r.Aborted? then
      InitialAbortCause(r.error, required, owner, username, rounds);
      r
    else r
  }

  /** From the initial draft, the only header that can be missing is a
      configured required field outside it: every fuzzy field is there. */
  lemma InitialAbortCause(e: Error, required: seq<string>, owner: string, username: string, rounds: seq<Round>)
    requires AbortCause(e, required, InitialHeaders(owner, username), rounds)
    ensures || (e == Interrupted && exists i :: 0 <= i < |rounds| && rounds[i].interrupted)
            || (exists i, k :: 0 <= i < |rounds| && k in FuzzyFields &&
                               Lower(k) !in rounds[i].props && e == KeyError(Lower(k)))
            || (exists k :: k in required && k !in Keys(InitialHeaders(owner, username)) && e == KeyError(k))
  {
    var h := InitialHeaders(owner, username);
    if exists k :: (k in FuzzyFields || k in required) && Get(h, k).None? && e == KeyError(k) {
      var k :| (k in FuzzyFields || k in required) && Get(h, k).None? && e == KeyError(k);
      GetFound(h, k);
    }
  }
}
