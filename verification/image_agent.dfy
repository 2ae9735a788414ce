/** The receipt-image agent (`agent_image.py`): recovering the JSON object
    from the vision model's reply, the shape check on it, and the hand-off
    of the extracted items to `update_stock`. The model call itself is an
    input: the reply text, or the message of the exception that opening
    the image or calling the model raised. */
module ImageAgent {
  import opened Wrappers
  import opened JsonValue
  import opened Sequences
  import opened Calendar
  import opened Ledger
  import opened Tools

  // ---------------------------------------------------------------------
  // Python string primitives

  /** `str.isspace` for one character. */
  predicate IsSpace(ch: char) {
    ('\t' <= ch <= '\r') || ('\U{1C}' <= ch <= ' ') || ch == '\U{85}' || ch == '\U{A0}' ||
    ch == '\U{1680}' || ('\U{2000}' <= ch <= '\U{200A}') || ch == '\U{2028}' || ch == '\U{2029}' ||
    ch == '\U{202F}' || ch == '\U{205F}' || ch == '\U{3000}'
  }

  predicate AllSpace(s: string) {
    forall i :: 0 <= i < |s| ==> IsSpace(s[i])
  }

  function LStrip(s: string): (r: string)
    ensures |r| <= |s| && r == s[|s| - |r|..] && AllSpace(s[..|s| - |r|])
    ensures r == [] || !IsSpace(r[0])
  {
    if s != [] && IsSpace(s[0]) then
      var r := LStrip(s[1..]);
      DropFirst(s, |s| - |r|);
      r
    else s
  }

  function RStrip(s: string): (r: string)
    ensures |r| <= |s| && r == s[..|r|] && AllSpace(s[|r|..])
    ensures r == [] || !IsSpace(r[|r| - 1])
  {
    if s != [] && IsSpace(s[|s| - 1]) then
      var r := RStrip(s[..|s| - 1]);
      DropLast(s, |r|);
      r
    else s
  }

  lemma DropFirst<T>(s: seq<T>, k: nat)
    requires 1 <= k <= |s|
    ensures s[1..][..k - 1] == s[1..k] && s[..k] == [s[0]] + s[1..k]
  {
  }

  lemma DropLast<T>(s: seq<T>, k: nat)
    requires k < |s|
    ensures s[..|s| - 1][..k] == s[..k] && s[k..] == s[..|s| - 1][k..] + [s[|s| - 1]]
  {
  }

  /** `str.strip()`: neither end of the result is whitespace. */
  function Strip(s: string): (r: string)
    ensures |r| <= |s|
    ensures r == [] || (!IsSpace(r[0]) && !IsSpace(r[|r| - 1]))
  {
    RStrip(LStrip(s))
  }

  /** What `Strip` removes is whitespace on either side and nothing else. */
  lemma StripSplits(s: string) returns (p: string, q: string)
    ensures s == p + Strip(s) + q && AllSpace(p) && AllSpace(q)
  {
    var l := LStrip(s);
    p := LStripSplits(s);
    q := RStripSplits(l);
    Regroup(p, RStrip(l), q);
  }

  lemma LStripSplits(s: string) returns (p: string)
    ensures s == p + LStrip(s) && AllSpace(p)
  {
    var l := LStrip(s);
    p := s[..|s| - |l|];
    SplitAt(s, |s| - |l|);
  }

  lemma RStripSplits(l: string) returns (q: string)
    ensures l == RStrip(l) + q && AllSpace(q)
  {
    var r := RStrip(l);
    q := l[|r|..];
    SplitAt(l, |r|);
  }

  lemma SplitAt<T>(s: seq<T>, k: nat)
    requires k <= |s|
    ensures s == s[..k] + s[k..]
  {
  }

  lemma Regroup<T>(p: seq<T>, r: seq<T>, q: seq<T>)
    ensures p + (r + q) == p + r + q
  {
  }

  /** The first position at or after `k` holding `c`, or -1. */
  function FindFrom(s: string, c: char, k: nat): (i: int)
    requires k <= |s|
    ensures i == -1 || k <= i < |s|
    ensures i == -1 <==> forall j :: k <= j < |s| ==> s[j] != c
    ensures i != -1 ==> s[i] == c && forall j :: k <= j < i ==> s[j] != c
    decreases |s| - k
  {
    if k == |s| then -1
    else if s[k] == c then k
    else FindFrom(s, c, k + 1)
  }

  /** The last position before `n` holding `c`, or -1. */
  function FindBefore(s: string, c: char, n: nat): (i: int)
    requires n <= |s|
    ensures -1 <= i < n
    ensures i == -1 <==> forall j :: 0 <= j < n ==> s[j] != c
    ensures i != -1 ==> s[i] == c && forall j :: i < j < n ==> s[j] != c
  {
    if n == 0 then -1
    else if s[n - 1] == c then n - 1
    else FindBefore(s, c, n - 1)
  }

  /** `str.find(c)`: the first position of `c`, or -1. */
  function Find(s: string, c: char): (i: int)
    ensures i == -1 <==> c !in s
    ensures i != -1 ==> 0 <= i < |s| && s[i] == c && forall j :: 0 <= j < i ==> s[j] != c
  {
    FindFrom(s, c, 0)
  }

  /** `str.rfind(c)`: the last position of `c`, or -1. */
  function RFind(s: string, c: char): (i: int)
    ensures i == -1 <==> c !in s
    ensures i != -1 ==> 0 <= i < |s| && s[i] == c && forall j :: i < j < |s| ==> s[j] != c
  {
    FindBefore(s, c, |s|)
  }

  /** `s[a:b]` for `0 <= a` and `b <= len(s)`: empty when `b <= a`. */
  function Slice(s: string, a: nat, b: nat): string
    requires a <= |s| && b <= |s|
  {
    if b <= a then [] else s[a..b]
  }

  /** The text from the first `{` to the last `}`, when both occur (empty
      when the last `}` comes before the first `{`). */
  function Candidate(t: string): (c: Option<string>)
    ensures c.Some? ==> |c.value| <= |t|
    ensures c.Some? && c.value != [] ==> c.value[0] == '{' && c.value[|c.value| - 1] == '}'
  {
    var start := Find(t, '{');
    var end := RFind(t, '}');
    if start == -1 || end == -1 then None else Some(Slice(t, start, end + 1))
  }

  /** There is no candidate exactly when a brace of either kind is missing. */
  lemma CandidateAbsent(t: string)
    ensures Candidate(t).None? <==> '{' !in t || '}' !in t
  {
  }

  // ---------------------------------------------------------------------
  // Where the candidate lies

  lemma FindAt(s: string, c: char, i: nat)
    requires i < |s| && s[i] == c && forall j :: 0 <= j < i ==> s[j] != c
    ensures Find(s, c) == i
  {
  }

  lemma RFindAt(s: string, c: char, i: nat)
    requires i < |s| && s[i] == c && forall j :: i < j < |s| ==> s[j] != c
    ensures RFind(s, c) == i
  {
  }

  /** `y` occurs in `s` at offset `off`. */
  predicate Window(s: string, off: nat, y: string) {
    off + |y| <= |s| && s[off..off + |y|] == y
  }

  /** No brace of either kind occurs in `s` outside the `n` characters from `off`. */
  predicate BracesOnlyWithin(s: string, off: nat, n: nat) {
    forall j :: 0 <= j < |s| && !(off <= j < off + n) ==> s[j] != '{' && s[j] != '}'
  }

  /** The first `c` of `s`, when none comes before the window, is the first
      `c` of the window shifted by its offset. */
  lemma FindShifted(s: string, off: nat, y: string, c: char)
    requires Window(s, off, y) && c in y
    requires forall j :: 0 <= j < off ==> s[j] != c
    ensures Find(s, c) == off + Find(y, c)
  {
    var a := Find(y, c);
    assert s[off + a] == y[a];
    forall j | off <= j < off + a ensures s[j] != c {
      assert s[j] == y[j - off];
    }
    FindAt(s, c, off + a);
  }

  /** The last `c` of `s`, when none comes after the window, is the last
      `c` of the window shifted by its offset. */
  lemma RFindShifted(s: string, off: nat, y: string, c: char)
    requires Window(s, off, y) && c in y
    requires forall j :: off + |y| <= j < |s| ==> s[j] != c
    ensures RFind(s, c) == off + RFind(y, c)
  {
    var b := RFind(y, c);
    assert s[off + b] == y[b];
    forall j | off + b < j < off + |y| ensures s[j] != c {
      assert s[j] == y[j - off];
    }
    RFindAt(s, c, off + b);
  }

  lemma SliceShifted(s: string, off: nat, y: string, a: nat, b: nat)
    requires Window(s, off, y) && a <= |y| && b <= |y|
    ensures Slice(s, off + a, off + b) == Slice(y, a, b)
  {
    if a < b {
      forall i | 0 <= i < b - a ensures s[off + a..off + b][i] == y[a..b][i] {
        assert y[a + i] == s[off..off + |y|][a + i];
      }
      assert s[off + a..off + b] == y[a..b];
    }
  }

  lemma CandidateAt(t: string, a: nat, e: nat)
    requires Find(t, '{') == a && 0 < e && RFind(t, '}') + 1 == e
    ensures Candidate(t) == Some(Slice(t, a, e))
  {
  }

  /** Where the braces of `s` lie, given those of its window. */
  lemma ShiftedIndices(s: string, off: nat, y: string) returns (a: nat, b: nat)
    requires Window(s, off, y) && BracesOnlyWithin(s, off, |y|)
    requires '{' in y && '}' in y
    ensures a < |y| && b < |y|
    ensures Find(y, '{') == a && RFind(y, '}') == b
    ensures Find(s, '{') == off + a && RFind(s, '}') == off + b
  {
    a, b := Find(y, '{'), RFind(y, '}');
    FindShifted(s, off, y, '{');
    RFindShifted(s, off, y, '}');
  }

  /** A window holding every brace of `s` has the candidate of `s`. */
  lemma CandidateShifted(s: string, off: nat, y: string)
    requires Window(s, off, y) && BracesOnlyWithin(s, off, |y|)
    requires '{' in y && '}' in y
    ensures Candidate(s) == Candidate(y)
  {
    var a, b := ShiftedIndices(s, off, y);
    CandidateAt(s, off + a, off + b + 1);
    CandidateAt(y, a, b + 1);
    SliceShifted(s, off, y, a, b + 1);
  }

  lemma FramedWindow(p: string, y: string, q: string)
    requires '{' !in p && '}' !in p && '{' !in q && '}' !in q
    ensures Window(p + y + q, |p|, y) && BracesOnlyWithin(p + y + q, |p|, |y|)
  {
    var s := p + y + q;
    assert s[|p|..|p| + |y|] == y;
    forall j | 0 <= j < |s| && !(|p| <= j < |p| + |y|) ensures s[j] != '{' && s[j] != '}' {
      if j < |p| {
        assert s[j] == p[j];
      } else {
        assert s[j] == q[j - |p| - |y|];
      }
    }
  }

  /** Text around the candidate without braces does not move it: chatter
      before and after the object is ignored. */
  lemma CandidateFraming(p: string, y: string, q: string)
    requires '{' !in p && '}' !in p && '{' !in q && '}' !in q
    ensures Candidate(p + y + q) == Candidate(y)
  {
    if '{' in y && '}' in y {
      FramedWindow(p, y, q);
      CandidateShifted(p + y + q, |p|, y);
    } else {
      CandidateAbsent(p + y + q);
      CandidateAbsent(y);
    }
  }

  lemma SpaceHasNoBrace(s: string)
    requires AllSpace(s)
    ensures '{' !in s && '}' !in s
  {
  }

  /** Stripping the reply never changes the candidate object. */
  lemma StripKeepsCandidate(t: string)
    ensures Candidate(Strip(t)) == Candidate(t)
  {
    var p, q := StripSplits(t);
    SpaceHasNoBrace(p);
    SpaceHasNoBrace(q);
    CandidateFraming(p, Strip(t), q);
  }

  /** A whole object is its own candidate. */
  lemma CandidateOfObject(js: string)
    requires |js| >= 2 && js[0] == '{' && js[|js| - 1] == '}'
    ensures Candidate(js) == Some(js)
  {
    FindAt(js, '{', 0);
    RFindAt(js, '}', |js| - 1);
    assert js[0..|js|] == js;
  }

  // ---------------------------------------------------------------------
  // _parse_gemini_response and _validate_extracted_data

  const NoJsonMsg := "No JSON found enclosed in response"
  const DecodeFailedPrefix := "Failed to parse JSON for error : "
  const InvalidStructureMsg := "Invalid data structure returned"
  const ProcessingFailedPrefix := "Error processing image : "

  /** The failure dictionary the agent returns in place of extracted data. */
  function FailureDict(msg: string): Json {
    JObj(map["success" := JBool(false), "error" := JStr(msg), "confidence_score" := JFloat(0.0)])
  }

  /** `field in data` for the two required fields: dictionary keys, list
      elements equal to the field's name, or substrings of a string; on any
      other value `in` raises a TypeError, whose message is the error. */
  function Validate(data: Json): (r: Result<bool, string>)
    ensures r.Err? <==> !(data.JObj? || data.JArr? || data.JStr?)
    ensures r.Err? ==> r.error == "argument of type '" + TypeName(data) + "' is not iterable"
    ensures data.JObj? ==> r == Ok("success" in data.fields && "items" in data.fields)
    ensures data.JArr? ==> r == Ok(JStr("success") in data.elems && JStr("items") in data.elems)
  {
    match data
    case JObj(m) => Ok("success" in m && "items" in m)
    case JArr(a) => Ok(JStr("success") in a && JStr("items") in a)
    case JStr(s) => Ok(Contains(s, "success") && Contains(s, "items"))
    case _ => Err("argument of type '" + TypeName(data) + "' is not iterable")
  }

  /** `_parse_gemini_response`: the decoded object, a failure dictionary,
      or (Err) the message of an exception it does not catch. `loads` is
      `json.loads`, with Err carrying a JSONDecodeError's message. */
  function ParseResponse(text: string, loads: string -> Result<Json, string>): (r: Result<Json, string>)
    ensures '{' !in text || '}' !in text ==> r == Ok(FailureDict(NoJsonMsg))
    ensures r.Err? ==>
      Candidate(text).Some? && loads(Candidate(text).value).Ok? &&
      Validate(loads(Candidate(text).value).value).Err?
    ensures (r.Ok? && r.value != FailureDict(NoJsonMsg) && r.value != FailureDict(InvalidStructureMsg) &&
             forall m :: r.value != FailureDict(DecodeFailedPrefix + m)) ==>
        Candidate(text).Some? && loads(Candidate(text).value) == Ok(r.value) && Validate(r.value) == Ok(true)
  {
    var t := Strip(text);
    StripKeepsCandidate(text);
    CandidateAbsent(text);
    match Candidate(t)
    case None => Ok(FailureDict(NoJsonMsg))
    case Some(js) =>
      match loads(js)
      case Err(msg) => Ok(FailureDict(DecodeFailedPrefix + msg))
      case Ok(data) =>
        match Validate(data)
        case Err(msg) => Err(msg)
        case Ok(valid) => if valid then Ok(data) else Ok(FailureDict(InvalidStructureMsg))
  }

  /** The partner of `ParseResponse`: an object with both required keys,
      written out by the model with brace-free text around it, comes back
      unchanged. */
  lemma ParseResponseRecovers(pre: string, js: string, post: string, data: Json, loads: string -> Result<Json, string>)
    requires '{' !in pre && '}' !in pre && '{' !in post && '}' !in post
    requires |js| >= 2 && js[0] == '{' && js[|js| - 1] == '}'
    requires loads(js) == Ok(data) && data.JObj? && "success" in data.fields && "items" in data.fields
    ensures ParseResponse(pre + js + post, loads) == Ok(data)
  {
    StripKeepsCandidate(pre + js + post);
    CandidateFraming(pre, js, post);
    CandidateOfObject(js);
  }

  /** Undecodable candidate text becomes the decode failure dictionary. */
  lemma ParseResponseDecodeFailure(text: string, loads: string -> Result<Json, string>)
    requires Candidate(text).Some? && loads(Candidate(text).value).Err?
    ensures ParseResponse(text, loads) == Ok(FailureDict(DecodeFailedPrefix + loads(Candidate(text).value).error))
  {
    StripKeepsCandidate(text);
  }

  /** A decoded dictionary missing a required key becomes the
      invalid-structure failure dictionary. */
  lemma ParseResponseMissingKey(text: string, loads: string -> Result<Json, string>)
    requires Candidate(text).Some? && loads(Candidate(text).value).Ok?
    requires var data := loads(Candidate(text).value).value;
      data.JObj? && ("success" !in data.fields || "items" !in data.fields)
    ensures ParseResponse(text, loads) == Ok(FailureDict(InvalidStructureMsg))
  {
    StripKeepsCandidate(text);
  }

  // ---------------------------------------------------------------------
  // process_receipt_image and img_process

  datatype Receipt = Processed(extracted: Json) | ProcessFailed(error: string)

  /** `process_receipt_image`: any exception (from opening the image,
      calling the model, or the shape check) becomes a failure message;
      everything `_parse_gemini_response` returns, failure dictionaries
      included, counts as extracted data. */
  function ProcessReceipt(reply: Result<string, string>, loads: string -> Result<Json, string>): (r: Receipt)
    ensures reply.Err? ==> r == ProcessFailed(ProcessingFailedPrefix + reply.error)
    ensures reply.Ok? && ParseResponse(reply.value, loads).Ok? ==> r == Processed(ParseResponse(reply.value, loads).value)
    ensures r.ProcessFailed? ==> |r.error| >= |ProcessingFailedPrefix| && r.error[..|ProcessingFailedPrefix|] == ProcessingFailedPrefix
  {
    match reply
    case Err(msg) => ProcessFailed(ProcessingFailedPrefix + msg)
    case Ok(text) =>
      match ParseResponse(text, loads)
      case Err(msg) => ProcessFailed(ProcessingFailedPrefix + msg)
      case Ok(data) => Processed(data)
  }

  datatype ImageResult = Updated(outcome: Outcome) | Rejected(message: string)

  /** `img_process`: a processed receipt goes to `update_stock`; a failed
      one is reported and the ledger is left alone. */
  function ImgProcessStep(rows: seq<Row>, reply: Result<string, string>, loads: string -> Result<Json, string>,
                          reference: seq<ReferenceItem>, now: Moment): (s: Step<ImageResult>)
    ensures s.result.Rejected? ==> s.rows == rows && ProcessReceipt(reply, loads).ProcessFailed?
    ensures s.result.Updated? ==> ProcessReceipt(reply, loads).Processed?
    ensures s.result.Updated? ==>
      s == (var u := UpdateStockStep(rows, ProcessReceipt(reply, loads).extracted, reference, now); Step(Updated(u.result), u.rows))
  {
    match ProcessReceipt(reply, loads)
    case ProcessFailed(e) => Step(Rejected(e), rows)
    case Processed(data) =>
      var u := UpdateStockStep(rows, data, reference, now);
      Step(Updated(u.result), u.rows)
  }

  method ImgProcess(store: InventoryFile, reply: Result<string, string>, loads: string -> Result<Json, string>,
                    reference: seq<ReferenceItem>, now: Moment) returns (r: ImageResult)
    modifies store
    ensures Step(r, store.rows) == ImgProcessStep(old(store.rows), reply, loads, reference, now)
  {
    var receipt := ProcessReceipt(reply, loads);
    if receipt.ProcessFailed? {
      return Rejected(receipt.error);
    }
    var outcome := UpdateStock(store, receipt.extracted, reference, now);
    r := Updated(outcome);
  }

  /** A failure dictionary from the parser passes as extracted data, but it
      has no "items": `update_stock` fails with KeyError('items') (or with
      the ledger's own date error) and the ledger is never written. */
  lemma FailureDictNeverWrites(rows: seq<Row>, text: string, msg: string, loads: string -> Result<Json, string>,
                               reference: seq<ReferenceItem>, now: Moment)
    requires ParseResponse(text, loads) == Ok(FailureDict(msg))
    ensures ImgProcessStep(rows, Ok(text), loads, reference, now).rows == rows
    ensures ClearOld(rows, now).Ok? ==>
      ImgProcessStep(rows, Ok(text), loads, reference, now).result == Updated(Failed(KeyError("items")))
  {
    assert "items" !in FailureDict(msg).fields;
  }
}
