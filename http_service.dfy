/**
 * `Server::call`: the HTTP service of the subscriber. It answers one route,
 * `GET /noise_levels`, with a text body echoing the requested range.
 */
module HttpService {
  import opened Wrappers
  import opened Bytes
  import opened Int64
  import opened FormUrlencoded
  import opened RangeQuery

  /** The request methods hyper distinguishes. */
  datatype Method = Options | Get | Post | Put | Delete | Head | Trace | Connect | Patch
                  | Extension(name: string)

  /** What the service looks at in a request: method (`verb`), path, and the query string's bytes if there is one. */
  datatype Request = Request(verb: Method, path: string, query: Option<seq<Byte>>)

  /** A response: its status, its Content-Length header if set, and its body. */
  datatype Response = Response(status: nat, contentLength: Option<nat>, body: seq<Byte>)

  const OK: nat := 200
  const BAD_REQUEST: nat := 400
  const NOT_FOUND: nat := 404

  const ROUTE: string := "/noise_levels"

  /** hyper's `Response::new().with_status(status)`: no headers, empty body. */
  function Empty(status: nat): Response {
    Response(status, None, [])
  }

  const GREETING: seq<Byte> := FromAscii("Hello world!\nfrom: ")
  const TO_LABEL: seq<Byte> := FromAscii("\nto: ")

  /** The text `Hello world!\nfrom: <from>\nto: <to>`. */
  function Body(from: int, to: int): (r: seq<Byte>)
    ensures |r| >= |GREETING| + |TO_LABEL| + 2
    ensures r[..|GREETING|] == GREETING
  {
    GREETING + ToDecimal(from) + TO_LABEL + ToDecimal(to)
  }

  predicate IsRoute(req: Request) {
    req.verb == Get && req.path == ROUTE
  }

  /**
   * The response to a request: 404 off the route, 400 on the route without a
   * query or with one that has no range, and otherwise the default status 200
   * with the echo body and a Content-Length equal to its length in bytes.
   */
  function Call(req: Request): (resp: Response)
    ensures resp.status == NOT_FOUND <==> !IsRoute(req)
    ensures resp.status == BAD_REQUEST <==>
              IsRoute(req) && (req.query.None? || QueryRange(req.query.value).Failure?)
    ensures resp.status == OK <==> IsRoute(req) && req.query.Some? && QueryRange(req.query.value).Success?
    ensures resp.status == OK ==>
              var (from, to) := QueryRange(req.query.value).value;
              resp.body == Body(from, to) && resp.contentLength == Some(|resp.body|)
    ensures resp.status != OK ==> resp.contentLength.None? && resp.body == []
  {
    match (req.verb, req.path)
    case (Get, "/noise_levels") =>
      (match req.query
       case None => Empty(BAD_REQUEST)
       case Some(query) =>
         match QueryRange(query)
         case Failure(_) => Empty(BAD_REQUEST)
         case Success((from, to)) =>
           var response := Body(from, to);
           Response(OK, Some(|response|), response))
    case _ => Empty(NOT_FOUND)
  }

  lemma {:induction false} SplitAtNewline(x: seq<Byte>, r: seq<Byte>, y: seq<Byte>, t: seq<Byte>)
    requires NEWLINE !in x && NEWLINE !in y
    requires x + [NEWLINE] + r == y + [NEWLINE] + t
    ensures x == y && r == t
  {
    var s := x + [NEWLINE] + r;
    IndexOfFirst(x, NEWLINE, r);
    IndexOfFirst(y, NEWLINE, t);
    assert x == s[..|x|] == y;
    assert r == s[|x| + 1..] == t;
  }

  lemma {:induction false} DropPrefix(p: seq<Byte>, u: seq<Byte>, v: seq<Byte>)
    requires p + u == p + v
    ensures u == v
  {
    assert u == (p + u)[|p|..];
  }

  lemma {:induction false} Regroup(g: seq<Byte>, x: seq<Byte>, s: seq<Byte>, y: seq<Byte>)
    ensures g + x + ([NEWLINE] + s) + y == g + (x + [NEWLINE] + (s + y))
  {
  }

  /** The echo text splits back into its two numbers, the first having no newline. */
  lemma {:induction false} EchoInjective(x: seq<Byte>, y: seq<Byte>, u: seq<Byte>, v: seq<Byte>)
    requires NEWLINE !in x && NEWLINE !in u
    requires GREETING + x + TO_LABEL + y == GREETING + u + TO_LABEL + v
    ensures x == u && y == v
  {
    var spaceTo := TO_LABEL[1..];
    assert TO_LABEL == [NEWLINE] + spaceTo;
    Regroup(GREETING, x, spaceTo, y);
    Regroup(GREETING, u, spaceTo, v);
    DropPrefix(GREETING, x + [NEWLINE] + (spaceTo + y), u + [NEWLINE] + (spaceTo + v));
    SplitAtNewline(x, spaceTo + y, u, spaceTo + v);
    DropPrefix(spaceTo, y, v);
  }

  /** Distinct ranges are echoed by distinct bodies: the body determines the range. */
  lemma {:induction false} BodyInjective(a: int, b: int, c: int, d: int)
    requires InRange(a) && InRange(b) && InRange(c) && InRange(d)
    requires Body(a, b) == Body(c, d)
    ensures a == c && b == d
  {
    EchoInjective(ToDecimal(a), ToDecimal(b), ToDecimal(c), ToDecimal(d));
    ToDecimalInjective(a, c);
    ToDecimalInjective(b, d);
  }

  /** A well-formed range request is answered with 200 and the echo of exactly that range. */
  lemma {:induction false} RangeRequestAnswered(from: int, to: int)
    requires InRange(from) && InRange(to)
    ensures var query := Serialize([Pair(FROM, ToDecimal(from)), Pair(TO, ToDecimal(to))]);
            Call(Request(Get, ROUTE, Some(query))) == Response(OK, Some(|Body(from, to)|), Body(from, to))
  {
    WellFormedQuery(from, to);
  }

  /** Any other method on the route, `POST /noise_levels` included, is 404. */
  lemma {:induction false} OtherMethodsNotFound(m: Method, query: Option<seq<Byte>>)
    requires m != Get
    ensures Call(Request(m, ROUTE, query)) == Empty(NOT_FOUND)
  {
  }

  /** A `from` value that is not an `i64` (`from=abc`, say) makes the request a bad one. */
  lemma {:induction false} InvalidFromRejected(value: seq<Byte>)
    requires FromDecimal(value).None?
    ensures Call(Request(Get, ROUTE, Some(Serialize([Pair(FROM, value)])))) == Empty(BAD_REQUEST)
  {
    ParseSerialize([Pair(FROM, value)]);
  }

  /** The route without a query string is a bad request. */
  lemma {:induction false} MissingQueryRejected()
    ensures Call(Request(Get, ROUTE, None)) == Empty(BAD_REQUEST)
  {
  }
}
