/**
 * The request-parameter helpers of the gin server plugin: required-parameter
 * checks that answer the request with a validation error when the value is
 * missing, and the array readers that split every raw value on commas.
 *
 * The `gin.Context` a helper reads from is a `Request`: the parsed query
 * string, the parsed form body and the headers.  The reply a failed check
 * writes (`ctx.JSON(200, …)`) is returned as an optional value, and the
 * value stored through `v *string` is an out-parameter.
 */
module Params {
  import opened Text

  /** Appended to a parameter's name in the default error message ("must not be empty"). */
  const Required: string := "不能为空"

  datatype Option<T> = None | Some(value: T)

  /** The body of a `response.ValidateError(msg)` reply, sent with status 200. */
  datatype Reply = ValidateError(msg: string)

  /** The first value of `key` in a parsed multi-valued map, or "" when it has none. */
  function First(values: map<string, seq<string>>, key: string): (r: string)
    ensures key in values && values[key] != [] ==> r == values[key][0]
    ensures key !in values || values[key] == [] ==> r == ""
  {
    if key in values && values[key] != [] then values[key][0] else ""
  }

  /** All values of `key` in a parsed multi-valued map, none when it is absent. */
  function All(values: map<string, seq<string>>, key: string): (r: seq<string>)
    ensures key in values ==> r == values[key]
    ensures key !in values ==> r == []
  {
    if key in values then values[key] else []
  }

  /**
   * The split-and-flatten rule of `QueryArray` and `PostFormArray`: the comma
   * pieces of every raw value, value after value.
   */
  function FlattenSplit(raw: seq<string>): seq<string>
  {
    if raw == [] then []
    else FlattenSplit(raw[..|raw| - 1]) + Split(raw[|raw| - 1], ',')
  }

  /** The number of pieces the raw values split into: one more than the commas of each. */
  function Pieces(raw: seq<string>): nat
  {
    if raw == [] then 0 else Pieces(raw[..|raw| - 1]) + Count(raw[|raw| - 1], ',') + 1
  }

  /** Splitting is done value by value: the pieces of `xs + ys` are those of `xs`, then those of `ys`. */
  lemma {:induction false} FlattenSplitAppend(xs: seq<string>, ys: seq<string>)
    ensures FlattenSplit(xs + ys) == FlattenSplit(xs) + FlattenSplit(ys)
    decreases |ys|
  {
    if ys == [] {
      assert xs + ys == xs;
    } else {
      var init, last := ys[..|ys| - 1], ys[|ys| - 1];
      var all := xs + ys;
      calc {
        FlattenSplit(all);
        { SnocAppend(xs, ys); }
        FlattenSplit(xs + init) + Split(last, ',');
        { FlattenSplitAppend(xs, init); }
        FlattenSplit(xs) + (FlattenSplit(init) + Split(last, ','));
        FlattenSplit(xs) + FlattenSplit(ys);
      }
    }
  }

  /** The front and the last element of `xs + ys` when `ys` is not empty. */
  lemma SnocAppend<T>(xs: seq<T>, ys: seq<T>)
    requires ys != []
    ensures (xs + ys)[..|xs + ys| - 1] == xs + ys[..|ys| - 1]
    ensures (xs + ys)[|xs + ys| - 1] == ys[|ys| - 1]
  {
  }

  /** Each raw value contributes one piece more than it has commas. */
  lemma {:induction false} FlattenSplitLength(raw: seq<string>)
    ensures |FlattenSplit(raw)| == Pieces(raw)
    decreases |raw|
  {
    if raw != [] {
      FlattenSplitLength(raw[..|raw| - 1]);
      SplitLength(raw[|raw| - 1], ',');
    }
  }

  /** No piece contains a comma. */
  lemma {:induction false} FlattenSplitNoComma(raw: seq<string>)
    ensures forall k :: 0 <= k < |FlattenSplit(raw)| ==> ',' !in FlattenSplit(raw)[k]
    decreases |raw|
  {
    if raw != [] {
      var init := raw[..|raw| - 1];
      FlattenSplitNoComma(init);
      SplitPieces(raw[|raw| - 1], ',');
      var r := FlattenSplit(raw);
      assert r == FlattenSplit(init) + Split(raw[|raw| - 1], ',');
      forall k | 0 <= k < |r| ensures ',' !in r[k] {
        if k >= |FlattenSplit(init)| {
          assert r[k] == Split(raw[|raw| - 1], ',')[k - |FlattenSplit(init)|];
        }
      }
    }
  }

  /** Nothing is lost or reordered: joining the pieces with commas gives the raw values joined with commas. */
  lemma {:induction false} FlattenSplitJoin(raw: seq<string>)
    requires raw != []
    ensures FlattenSplit(raw) != []
    ensures Join(FlattenSplit(raw), ',') == Join(raw, ',')
    decreases |raw|
  {
    var init, last := raw[..|raw| - 1], raw[|raw| - 1];
    var tail := Split(last, ',');
    assert FlattenSplit(raw) == FlattenSplit(init) + tail;
    if init == [] {
      assert FlattenSplit(raw) == tail;
      JoinSplit(last, ',');
    } else {
      FlattenSplitJoin(init);
      calc {
        Join(FlattenSplit(raw), ',');
        { JoinAppend(FlattenSplit(init), tail, ','); }
        Join(FlattenSplit(init), ',') + [','] + Join(tail, ',');
        { JoinSplit(last, ','); }
        Join(init, ',') + [','] + Join([last], ',');
        { JoinAppend(init, [last], ','); assert init + [last] == raw; }
        Join(raw, ',');
      }
    }
  }

  /** No raw values, no pieces. */
  lemma FlattenSplitEmpty(raw: seq<string>)
    ensures FlattenSplit(raw) == [] <==> raw == []
  {
    if raw != [] {
      assert Split(raw[|raw| - 1], ',') != [];
    }
  }

  /** `?ids=a,b&ids=c` reads as `["a", "b", "c"]`. */
  lemma FlattenSplitExample()
    ensures FlattenSplit(["a,b", "c"]) == ["a", "b", "c"]
  {
    var raw := ["a,b", "c"];
    assert raw[..1] == ["a,b"];
    assert ["a,b"][..0] == [];
    assert IndexOf("a,b", ',') == 1;
    assert "a,b"[..1] == "a" && "a,b"[2..] == "b";
    assert Split("a,b", ',') == ["a", "b"];
    assert Split("c", ',') == ["c"];
  }

  /** The parsed parts of the request a handler reads its parameters from. */
  datatype Request = Request(query: map<string, seq<string>>, form: map<string, seq<string>>, header: map<string, seq<string>>)
  {
    /** `ctx.Query(name)`. */
    function Query(name: string): string
    {
      First(query, name)
    }

    /** `ctx.PostForm(name)`. */
    function PostForm(name: string): string
    {
      First(form, name)
    }

    /** `ctx.GetHeader(name)`. */
    function GetHeader(name: string): string
    {
      First(header, name)
    }
  }

  /**
   * `CheckParamsWithErrorMsg`: `v` always receives `str`; an empty `str`
   * fails and answers the request with `errorMsg`, or with the parameter's
   * name followed by `Required` when no message was given.
   */
  method CheckParamsWithErrorMsg(name: string, str: string, errorMsg: string)
    returns (ok: bool, v: string, reply: Option<Reply>)
    ensures v == str
    ensures ok <==> str != ""
    ensures ok ==> reply == None
    ensures !ok && errorMsg == "" ==> reply == Some(ValidateError(name + Required))
    ensures !ok && errorMsg != "" ==> reply == Some(ValidateError(errorMsg))
  {
    v := str;
    if |str| == 0 {
      if |errorMsg| == 0 {
        reply := Some(ValidateError(name + Required));
      } else {
        reply := Some(ValidateError(errorMsg));
      }
      return false, v, reply;
    }
    return true, v, None;
  }

  /** `CheckQueryParamsWithErrorMsg`: the check applied to the query value. */
  method CheckQueryParamsWithErrorMsg(name: string, errorMsg: string, req: Request)
    returns (ok: bool, v: string, reply: Option<Reply>)
    ensures v == req.Query(name)
    ensures ok <==> v != ""
    ensures ok ==> reply == None
    ensures !ok && errorMsg == "" ==> reply == Some(ValidateError(name + Required))
    ensures !ok && errorMsg != "" ==> reply == Some(ValidateError(errorMsg))
  {
    var str := req.Query(name);
    ok, v, reply := CheckParamsWithErrorMsg(name, str, errorMsg);
  }

  /** `CheckHeaderParamsWithErrorMsg`: the check applied to the header value. */
  method CheckHeaderParamsWithErrorMsg(name: string, errorMsg: string, req: Request)
    returns (ok: bool, v: string, reply: Option<Reply>)
    ensures v == req.GetHeader(name)
    ensures ok <==> v != ""
    ensures ok ==> reply == None
    ensures !ok && errorMsg == "" ==> reply == Some(ValidateError(name + Required))
    ensures !ok && errorMsg != "" ==> reply == Some(ValidateError(errorMsg))
  {
    var str := req.GetHeader(name);
    ok, v, reply := CheckParamsWithErrorMsg(name, str, errorMsg);
  }

  /**
   * `CheckPostFormParamsWithErrorMsg`: the check applied to the form value,
   * or to the query value when the form value is empty.
   */
  method CheckPostFormParamsWithErrorMsg(name: string, errorMsg: string, req: Request)
    returns (ok: bool, v: string, reply: Option<Reply>)
    ensures req.PostForm(name) != "" ==> v == req.PostForm(name)
    ensures req.PostForm(name) == "" ==> v == req.Query(name)
    ensures ok <==> v != ""
    ensures ok ==> reply == None
    ensures !ok && errorMsg == "" ==> reply == Some(ValidateError(name + Required))
    ensures !ok && errorMsg != "" ==> reply == Some(ValidateError(errorMsg))
  {
    var str := req.PostForm(name);
    if |str| == 0 {
      str := req.Query(name);
    }
    ok, v, reply := CheckParamsWithErrorMsg(name, str, errorMsg);
  }

  /** `CheckQueryParams`: the query check with the default message. */
  method CheckQueryParams(name: string, req: Request) returns (ok: bool, v: string, reply: Option<Reply>)
    ensures v == req.Query(name)
    ensures ok <==> v != ""
    ensures ok ==> reply == None
    ensures !ok ==> reply == Some(ValidateError(name + Required))
  {
    ok, v, reply := CheckQueryParamsWithErrorMsg(name, "", req);
  }

  /** `CheckPostFormParams`: the form check, with its query fallback, and the default message. */
  method CheckPostFormParams(name: string, req: Request) returns (ok: bool, v: string, reply: Option<Reply>)
    ensures req.PostForm(name) != "" ==> v == req.PostForm(name)
    ensures req.PostForm(name) == "" ==> v == req.Query(name)
    ensures ok <==> v != ""
    ensures ok ==> reply == None
    ensures !ok ==> reply == Some(ValidateError(name + Required))
  {
    ok, v, reply := CheckPostFormParamsWithErrorMsg(name, "", req);
  }

  /** `CheckHeaderParams`: the header check with the default message. */
  method CheckHeaderParams(name: string, req: Request) returns (ok: bool, v: string, reply: Option<Reply>)
    ensures v == req.GetHeader(name)
    ensures ok <==> v != ""
    ensures ok ==> reply == None
    ensures !ok ==> reply == Some(ValidateError(name + Required))
  {
    ok, v, reply := CheckHeaderParamsWithErrorMsg(name, "", req);
  }

  /** `QueryArray`: every value of the query parameter, split on commas. */
  method QueryArray(req: Request, name: string) returns (params: seq<string>)
    ensures params == FlattenSplit(All(req.query, name))
  {
    params := SplitValues(All(req.query, name));
  }

  /** `PostFormArray`: every value of the form field, split on commas. */
  method PostFormArray(req: Request, name: string) returns (params: seq<string>)
    ensures params == FlattenSplit(All(req.form, name))
  {
    params := SplitValues(All(req.form, name));
  }

  /** The loop of `QueryArray` and `PostFormArray`: append the comma pieces of each value in turn. */
  method SplitValues(raw: seq<string>) returns (params: seq<string>)
    ensures params == FlattenSplit(raw)
  {
    params := [];
    if |raw| > 0 {
      for i := 0 to |raw|
        invariant params == FlattenSplit(raw[..i])
      {
        var tmp := Split(raw[i], ',');
        assert raw[..i + 1][..i] == raw[..i];
        params := params + tmp;
      }
      assert raw[..|raw|] == raw;
    }
  }
}
