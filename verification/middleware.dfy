/**
 * The email-verification gate: a request middleware that sends an
 * authenticated user whose email address is not yet confirmed to the
 * "activation sent" page, except on a short list of pages that such a user
 * must still be able to reach.
 *
 * The middleware is a pure decision. The URL resolver (`reverse`) and the
 * downstream handler (`get_response`) are framework collaborators, so both
 * are parameters here.
 */
module Middleware {

  type Path = string
  type UrlName = string

  /** The user attached to a request. Only an authenticated user has a
      profile, and so a confirmed flag; the gate reads that flag only after it
      has seen the user is authenticated. */
  datatype User = AnonymousUser | AuthenticatedUser(emailConfirmed: bool)

  datatype Request = Request(user: User, path: Path)

  /** What the middleware answers: the downstream handler's own response,
      or a redirect to a location. */
  datatype Response<R> = Downstream(response: R) | Redirect(location: Path)

  /** Named routes an unconfirmed user may still request, matched exactly
      against their resolved paths. */
  const AllowedUrlNames: seq<UrlName> :=
    ["accounts:logout", "accounts:account_activation_sent", "accounts:resend_activation_email"]

  /** Literal path prefixes an unconfirmed user may always request. */
  const AllowedPathPrefixes: seq<Path> := ["/admin/", "/accounts/activate/"]

  /** The named route the gate redirects to. */
  const ActivationSentName: UrlName := "accounts:account_activation_sent"

  /** The resolved path of every name, in order (the list comprehension
      over `reverse`). */
  function ResolveAll(reverse: UrlName -> Path, names: seq<UrlName>): (paths: seq<Path>)
    ensures |paths| == |names|
    ensures forall i :: 0 <= i < |names| ==> paths[i] == reverse(names[i])
  {
    if names == [] then [] else [reverse(names[0])] + ResolveAll(reverse, names[1..])
  }

  /** Whether the path starts with one of the prefixes (`any(... startswith ...)`). */
  function StartsWithAny(path: Path, prefixes: seq<Path>): (b: bool)
    ensures b <==> exists i :: 0 <= i < |prefixes| && prefixes[i] <= path
  {
    |prefixes| > 0 && (prefixes[0] <= path || StartsWithAny(path, prefixes[1..]))
  }

  /** The gate's four-way condition over given exact paths and prefixes:
      the request is intercepted exactly when the user is authenticated, is
      not confirmed, the path is none of the exact paths and starts with none
      of the prefixes. */
  predicate Intercepts(user: User, path: Path, exactPaths: seq<Path>, prefixes: seq<Path>)
  {
    user.AuthenticatedUser? && !user.emailConfirmed
    && path !in exactPaths
    && !StartsWithAny(path, prefixes)
  }

  /** Only an authenticated, unconfirmed user is ever intercepted, whatever
      the allow-lists. */
  lemma InterceptsOnlyUnconfirmed(user: User, path: Path, exactPaths: seq<Path>, prefixes: seq<Path>)
    requires Intercepts(user, path, exactPaths, prefixes)
    ensures user == AuthenticatedUser(false)
  {
  }

  /** Widening the allow-lists never intercepts a request that was let
      through before: whatever is intercepted under the larger lists is
      intercepted under the smaller ones. */
  lemma WideningAllowListsNeverIntercepts(user: User, path: Path, exactPaths: seq<Path>, prefixes: seq<Path>,
                                          moreExactPaths: seq<Path>, morePrefixes: seq<Path>)
    requires forall e :: e in exactPaths ==> e in moreExactPaths
    requires forall p :: p in prefixes ==> p in morePrefixes
    ensures Intercepts(user, path, moreExactPaths, morePrefixes) ==> Intercepts(user, path, exactPaths, prefixes)
  {
    if StartsWithAny(path, prefixes) {
      var i :| 0 <= i < |prefixes| && prefixes[i] <= path;
      assert prefixes[i] in prefixes;
    }
  }

  /** One pass of a request through the middleware. */
  function Call<R>(request: Request, reverse: UrlName -> Path, getResponse: Request -> R): (r: Response<R>)
    ensures r.Redirect? <==>
      request.user == AuthenticatedUser(false)
      && (forall n :: n in AllowedUrlNames ==> reverse(n) != request.path)
      && (forall p :: p in AllowedPathPrefixes ==> !(p <= request.path))
    ensures r.Redirect? ==> r.location == reverse(ActivationSentName)
    ensures r.Downstream? ==> r.response == getResponse(request)
  {
    var exactPaths := ResolveAll(reverse, AllowedUrlNames);
    assert forall i :: 0 <= i < |AllowedUrlNames| ==> AllowedUrlNames[i] in AllowedUrlNames;
    assert forall i :: 0 <= i < |AllowedPathPrefixes| ==> AllowedPathPrefixes[i] in AllowedPathPrefixes;
    if Intercepts(request.user, request.path, exactPaths, AllowedPathPrefixes) then
      Redirect(reverse(ActivationSentName))
    else
      Downstream(getResponse(request))
  }

  /** An anonymous request is passed through, whatever its path. */
  lemma AnonymousPassesThrough<R>(path: Path, reverse: UrlName -> Path, getResponse: Request -> R)
    ensures Call(Request(AnonymousUser, path), reverse, getResponse)
         == Downstream(getResponse(Request(AnonymousUser, path)))
  {
  }

  /** A user whose email is confirmed is passed through, whatever the path. */
  lemma ConfirmedPassesThrough<R>(path: Path, reverse: UrlName -> Path, getResponse: Request -> R)
    ensures Call(Request(AuthenticatedUser(true), path), reverse, getResponse)
         == Downstream(getResponse(Request(AuthenticatedUser(true), path)))
  {
  }

  /** An unconfirmed user asking for a path that is neither an allowed exact
      path nor under an allowed prefix is redirected to the activation-sent
      page. */
  lemma UnlistedPathRedirected<R>(path: Path, reverse: UrlName -> Path, getResponse: Request -> R)
    requires forall n :: n in AllowedUrlNames ==> reverse(n) != path
    requires forall p :: p in AllowedPathPrefixes ==> !(p <= path)
    ensures Call(Request(AuthenticatedUser(false), path), reverse, getResponse)
         == Redirect(reverse(ActivationSentName))
  {
  }

  /** An unconfirmed user asking for exactly the resolved path of one of the
      allowed route names is passed through. */
  lemma ExactAllowedPathPassesThrough<R>(name: UrlName, user: User, reverse: UrlName -> Path, getResponse: Request -> R)
    requires name in AllowedUrlNames
    ensures Call(Request(user, reverse(name)), reverse, getResponse)
         == Downstream(getResponse(Request(user, reverse(name))))
  {
  }

  /** Any path that starts with an allowed prefix is passed through. */
  lemma PrefixedPathPassesThrough<R>(prefix: Path, suffix: Path, user: User, reverse: UrlName -> Path, getResponse: Request -> R)
    requires prefix in AllowedPathPrefixes
    ensures Call(Request(user, prefix + suffix), reverse, getResponse)
         == Downstream(getResponse(Request(user, prefix + suffix)))
  {
    assert prefix <= prefix + suffix;
  }

  /** Every redirect the gate issues goes to the same place, whoever asks and
      whatever they ask for. */
  lemma RedirectTargetIsFixed<R>(a: Request, b: Request, reverse: UrlName -> Path, getResponse: Request -> R)
    requires Call(a, reverse, getResponse).Redirect?
    requires Call(b, reverse, getResponse).Redirect?
    ensures Call(a, reverse, getResponse).location == Call(b, reverse, getResponse).location
  {
  }

  /** Following the gate's redirect never leads to a second redirect: the
      activation-sent page is itself on the exact allow-list. */
  lemma RedirectIsNotLooped<R>(request: Request, reverse: UrlName -> Path, getResponse: Request -> R)
    requires Call(request, reverse, getResponse).Redirect?
    ensures var next := Request(request.user, Call(request, reverse, getResponse).location);
            Call(next, reverse, getResponse) == Downstream(getResponse(next))
  {
    assert AllowedUrlNames[1] == ActivationSentName;
    ExactAllowedPathPassesThrough(ActivationSentName, request.user, reverse, getResponse);
  }

  /** An activation link (`activate/<uidb64>/<token>/` under `/accounts/`)
      is reachable by an unconfirmed user, whatever the identifier and token. */
  lemma ActivationLinkPassesThrough<R>(uidb64: string, token: string, reverse: UrlName -> Path, getResponse: Request -> R)
    ensures var link := Request(AuthenticatedUser(false), "/accounts/activate/" + uidb64 + "/" + token + "/");
            Call(link, reverse, getResponse) == Downstream(getResponse(link))
  {
    var p := "/accounts/activate/";
    assert p == AllowedPathPrefixes[1];
    assert p + uidb64 + "/" + token + "/" == p + (uidb64 + "/" + token + "/");
    PrefixedPathPassesThrough(p, uidb64 + "/" + token + "/", AuthenticatedUser(false), reverse, getResponse);
  }

  /** An unconfirmed user can reach the admin dashboard. */
  lemma AdminDashboardPassesThrough<R>(reverse: UrlName -> Path, getResponse: Request -> R)
    ensures var request := Request(AuthenticatedUser(false), "/admin/dashboard/");
            Call(request, reverse, getResponse) == Downstream(getResponse(request))
  {
    assert "/admin/dashboard/" == AllowedPathPrefixes[0] + "dashboard/";
    PrefixedPathPassesThrough("/admin/", "dashboard/", AuthenticatedUser(false), reverse, getResponse);
  }

  /** An unconfirmed user asking for an ordinary page is redirected, provided
      the resolver does not happen to place one of the allowed routes there. */
  lemma ProtectedPageRedirected<R>(reverse: UrlName -> Path, getResponse: Request -> R)
    requires forall n :: n in AllowedUrlNames ==> reverse(n) != "/protected/"
    ensures Call(Request(AuthenticatedUser(false), "/protected/"), reverse, getResponse)
         == Redirect(reverse(ActivationSentName))
  {
    assert "/admin/"[1] != "/protected/"[1];
    assert "/accounts/activate/"[1] != "/protected/"[1];
    UnlistedPathRedirected("/protected/", reverse, getResponse);
  }
}
