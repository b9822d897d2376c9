/** Requests as the rate limiter sees them: the JSON body fields it consults,
    JavaScript truthiness of those fields, and key resolution (`getKey`). */
module Requests {

  datatype Option<+T> = None | Some(value: T)

  /** A value read from a parsed JSON body, as JavaScript sees it.
      `Ref` stands for an object or an array: it is always truthy and, as a
      key of a JavaScript `Map`, it compares by identity, which `id` names. */
  datatype Value =
    | Undefined
    | Null
    | Bool(b: bool)
    | Number(x: real)
    | Str(s: string)
    | Ref(id: nat)

  /** JavaScript truthiness: `undefined`, `null`, `false`, `0` and `""` are falsy. */
  predicate Truthy(v: Value) {
    match v
    case Undefined => false
    case Null => false
    case Bool(b) => b
    case Number(x) => x != 0.0
    case Str(s) => s != ""
    case Ref(_) => true
  }

  /** The three body fields the server reads; a field the client left out is `Undefined`. */
  datatype Body = Body(userId: Value, input: Value, category: Value)

  /** An inbound request: its parsed body (`None` when there is none) and the
      network origin address Express reports as `req.ip`. */
  datatype Request = Request(body: Option<Body>, ip: string)

  /** `req.body && req.body.userId`: undefined when there is no body. */
  function UserId(req: Request): Value {
    if req.body.Some? then req.body.value.userId else Undefined
  }

  /** The rate-limit key: the caller-supplied `userId` when it is truthy,
      the request's origin address otherwise. */
  function GetKey(req: Request): (k: Value)
    ensures Truthy(UserId(req)) ==> k == UserId(req)
    ensures !Truthy(UserId(req)) ==> k == Str(req.ip)
  {
    if Truthy(UserId(req)) then UserId(req) else Str(req.ip)
  }

  /** Two requests claiming the same truthy `userId` share a key, whatever their origins. */
  lemma SameUserSameKey(r1: Request, r2: Request)
    requires Truthy(UserId(r1)) && UserId(r1) == UserId(r2)
    ensures GetKey(r1) == GetKey(r2)
  {
  }

  /** Two requests without a truthy `userId` share a key exactly when they share an origin. */
  lemma AnonymousKeyIsOrigin(r1: Request, r2: Request)
    requires !Truthy(UserId(r1)) && !Truthy(UserId(r2))
    ensures GetKey(r1) == GetKey(r2) <==> r1.ip == r2.ip
  {
  }

  /** A user who claims a truthy `userId` never shares a key with a different claimed identity. */
  lemma DistinctUsersDistinctKeys(r1: Request, r2: Request)
    requires Truthy(UserId(r1)) && Truthy(UserId(r2)) && UserId(r1) != UserId(r2)
    ensures GetKey(r1) != GetKey(r2)
  {
  }

  /** Identities and origins live in one key space: a `userId` spelled like an
      address shares the bucket of anonymous callers from that address. */
  lemma UserIdCanCollideWithOrigin(ip: string, other: string)
    requires ip != ""
    ensures GetKey(Request(Some(Body(Str(ip), Undefined, Undefined)), other))
         == GetKey(Request(None, ip))
  {
  }
}
