/**
 * The request and response vocabulary shared by the signup and login handlers,
 * and the guard both run first: the path checks, then the method check, then the
 * empty form that a GET receives.
 */
module Http {
  import opened Base

  const StatusOK := 200
  const StatusNonAuthoritativeInfo := 203
  const StatusSeeOther := 303
  const StatusBadRequest := 400
  const StatusMethodNotAllowed := 405
  const StatusInternalServerError := 500

  const MaxPathBytes := 2048

  /** The lifetime of a session and of its cookie, `24 * time.Hour`, in seconds. */
  const SessionLifetime := 86400

  /**
   * The part of an `http.Request` the handlers read: `URL.Path`, `Method`, and the
   * submitted form (`None` when `ParseForm` fails).
   */
  datatype Request = Request(path: string, httpMethod: string, form: Option<map<string, string>>)

  /** `r.FormValue(key)`: the submitted value, or "" when the field is absent. */
  function FormValue(form: map<string, string>, key: string): string {
    if key in form then form[key] else ""
  }

  /** The `password` field, which both forms carry. */
  function Password(form: map<string, string>): string { FormValue(form, "password") }

  /** The `session_token` cookie; it is always set with `Path=/`, `HttpOnly` and `SameSite=Lax`. */
  datatype Cookie = Cookie(token: string, expires: int)

  /**
   * What a handler answers: a bare status page (`Render(w, code)`), the form
   * template re-rendered with an error message, or a 303 redirect that sets the
   * session cookie.
   */
  datatype Response =
    | Status(code: int)
    | Page(template: string, code: int, error: string)
    | SeeOther(location: string, cookie: Cookie)

  /** "contains `..`" */
  predicate HasDotDot(p: string) {
    exists i :: 0 <= i < |p| - 1 && p[i] == '.' && p[i + 1] == '.'
  }

  /** The first path check: longer than 2048 bytes, a NUL byte, or a `..`. */
  predicate SuspiciousPath(p: string) {
    Utf8Length(p) > MaxPathBytes || '\0' in p || HasDotDot(p)
  }

  /**
   * The guard both handlers run before reading the form. `clean` stands for
   * `path.Clean`. Path problems win over the method check; a GET is answered with
   * the blank form; only a POST to a safe, clean path gets past the guard.
   */
  function Guard(req: Request, clean: string -> string, template: string): (r: Option<Response>)
    ensures r.None? <==> !SuspiciousPath(req.path) && req.path == clean(req.path) && req.httpMethod == "POST"
    ensures SuspiciousPath(req.path) || req.path != clean(req.path) ==> r == Some(Status(StatusBadRequest))
    ensures !SuspiciousPath(req.path) && req.path == clean(req.path) && req.httpMethod !in {"GET", "POST"}
            ==> r == Some(Status(StatusMethodNotAllowed))
    ensures !SuspiciousPath(req.path) && req.path == clean(req.path) && req.httpMethod == "GET"
            ==> r == Some(Page(template, StatusOK, ""))
  {
    if SuspiciousPath(req.path) then Some(Status(StatusBadRequest))
    else if req.path != clean(req.path) then Some(Status(StatusBadRequest))
    else if req.httpMethod != "GET" && req.httpMethod != "POST" then Some(Status(StatusMethodNotAllowed))
    else if req.httpMethod == "GET" then Some(Page(template, StatusOK, ""))
    else None
  }
}
