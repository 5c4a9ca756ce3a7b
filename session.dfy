/**
 * Session-claims normalisation of the web client
 * (next-client/src/lib/auth.ts, parseSession).
 *
 * Claims are untyped JavaScript values at run time, so they are modelled as
 * a small JSON-like value type; a property read on anything that is not an
 * object yields `undefined`, as it does in JavaScript for these keys.
 */
module Session {
  import opened Wrappers

  datatype JsValue =
    | Undefined
    | Null
    | Str(s: string)
    | Num(n: real)
    | Bool(b: bool)
    | Obj(fields: map<string, JsValue>)

  /** JavaScript's `v == null`: true exactly for `null` and `undefined`. */
  predicate IsNullish(v: JsValue) {
    v.Undefined? || v.Null?
  }

  /** `v?.[key]` (and `v.key` on a non-nullish value): a missing key reads as `undefined`. */
  function Get(v: JsValue, key: string): (r: JsValue)
    ensures !v.Obj? ==> r == Undefined
    ensures v.Obj? && key in v.fields ==> r == v.fields[key]
    ensures v.Obj? && key !in v.fields ==> r == Undefined
  {
    match v
    case Obj(fields) => if key in fields then fields[key] else Undefined
    case _ => Undefined
  }

  /** JavaScript's nullish coalescing `a ?? b`. */
  function Coalesce(a: JsValue, b: JsValue): (r: JsValue)
    ensures !IsNullish(a) ==> r == a
    ensures IsNullish(a) ==> r == b
    ensures IsNullish(r) <==> IsNullish(a) && IsNullish(b)
  {
    if IsNullish(a) then b else a
  }

  /** `??` is associative, so `p ?? i ?? ""` means the same however it is grouped. */
  lemma CoalesceAssociative(a: JsValue, b: JsValue, c: JsValue)
    ensures Coalesce(Coalesce(a, b), c) == Coalesce(a, Coalesce(b, c))
  {
  }

  /** The record the function returns: exactly these two fields. */
  datatype User = User(name: JsValue, picture: JsValue)

  /** parseSession: drop everything but the user's display name and picture. */
  function ParseSession(session: JsValue): (r: Option<User>)
    // no user (or no session at all): undefined
    ensures r.None? <==> IsNullish(Get(session, "user"))
    // the name is kept unless it is null or undefined, even when it is ""
    ensures r.Some? && !IsNullish(Get(Get(session, "user"), "name")) ==>
              r.value.name == Get(Get(session, "user"), "name")
    ensures r.Some? && IsNullish(Get(Get(session, "user"), "name")) ==>
              r.value.name == Str("Guest")
    // picture: the first of picture, image, "" that is not nullish
    ensures r.Some? && !IsNullish(Get(Get(session, "user"), "picture")) ==>
              r.value.picture == Get(Get(session, "user"), "picture")
    ensures r.Some? && IsNullish(Get(Get(session, "user"), "picture"))
                    && !IsNullish(Get(Get(session, "user"), "image")) ==>
              r.value.picture == Get(Get(session, "user"), "image")
    ensures r.Some? && IsNullish(Get(Get(session, "user"), "picture"))
                    && IsNullish(Get(Get(session, "user"), "image")) ==>
              r.value.picture == Str("")
    // neither field of a returned user is ever null or undefined
    ensures r.Some? ==> !IsNullish(r.value.name) && !IsNullish(r.value.picture)
  {
    var user := Get(session, "user");
    if IsNullish(user) then None
    else Some(User(
      Coalesce(Get(user, "name"), Str("Guest")),
      Coalesce(Coalesce(Get(user, "picture"), Get(user, "image")), Str(""))))
  }

  /** Claims other than name, picture and image never influence the result. */
  lemma OtherClaimsIgnored(fields: map<string, JsValue>, user: map<string, JsValue>, key: string, v: JsValue)
    requires key != "name" && key != "picture" && key != "image"
    ensures ParseSession(Obj(fields["user" := Obj(user)]))
         == ParseSession(Obj(fields["user" := Obj(user[key := v])]))
  {
    var before := Obj(user);
    var after := Obj(user[key := v]);
    assert Get(before, "name") == Get(after, "name");
    assert Get(before, "picture") == Get(after, "picture");
    assert Get(before, "image") == Get(after, "image");
  }
}
