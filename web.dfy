/** The values a request handler returns: rendered pages, redirects and
    one-time ("flash") notices for the HTML routes, and JSON documents with
    a status code for the API routes. */
module Web {
  import opened Wrappers

  /** A request's HTTP method; a HEAD request is handled as `Get`. */
  datatype HttpMethod = Get | Post

  /** Python truthiness of a form value: a missing field (`None`) and the
      empty string are both falsy. */
  predicate Filled(field: Option<string>) {
    field.Some? && field.value != ""
  }

  datatype Category = Error | Success | Info

  /** A flash notice queued for the next rendered page. */
  datatype Flash = Flash(message: string, category: Category)

  /** A redirect target: either an endpoint resolved by `url_for`, or a raw
      URL path taken from the request. */
  datatype Location = Endpoint(name: string) | Url(url: string)

  const IndexEndpoint := "main.index"
  const LoginEndpoint := "auth.login"

  datatype Response =
    | Redirect(location: Location, flash: Option<Flash>)
    | Render(template: string, title: string, flash: Option<Flash>)

  /** A JSON value. Numbers are integers (see the README's note on
      `Api.Echo`). */
  datatype Json =
    | Null
    | Bool(b: bool)
    | Num(n: int)
    | Str(s: string)
    | Arr(items: seq<Json>)
    | Obj(fields: seq<(string, Json)>)

  /** A JSON body with its HTTP status code (`jsonify` answers 200 unless a
      code is given). */
  datatype ApiResponse = ApiResponse(status: nat, body: Json)

  /** No key occurs twice among the members of an object. */
  predicate DistinctKeys(fields: seq<(string, Json)>) {
    forall i, j :: 0 <= i < j < |fields| ==> fields[i].0 != fields[j].0
  }

  /** The value stored under `key` in a list of object members (the first
      one, should a key repeat). */
  function Lookup(fields: seq<(string, Json)>, key: string): (r: Option<Json>)
    ensures r.Some? ==> (key, r.value) in fields
    ensures r.None? <==> forall i :: 0 <= i < |fields| ==> fields[i].0 != key
    ensures DistinctKeys(fields) ==> forall i :: 0 <= i < |fields| && fields[i].0 == key ==> r == Some(fields[i].1)
  {
    if fields == [] then None
    else if fields[0].0 == key then Some(fields[0].1)
    else
      var r := Lookup(fields[1..], key);
      assert forall i :: 0 < i < |fields| ==> fields[i] == fields[1..][i - 1];
      r
  }

  /** The member `key` of a JSON object; `None` for a missing member or a
      value that is not an object. */
  function Field(j: Json, key: string): (r: Option<Json>)
    ensures r.Some? ==> j.Obj? && (key, r.value) in j.fields
    ensures r.None? <==> !j.Obj? || forall i :: 0 <= i < |j.fields| ==> j.fields[i].0 != key
    ensures j.Obj? && DistinctKeys(j.fields) ==>
              forall i :: 0 <= i < |j.fields| && j.fields[i].0 == key ==> r == Some(j.fields[i].1)
  {
    if j.Obj? then Lookup(j.fields, key) else None
  }
}
