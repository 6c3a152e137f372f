# Email-verification gate and duplicate-email check

This project models the two decision rules of the `accounts` application of
an investment-tracker web site:

- **The email-verification middleware** (`Middleware`, `middleware.dfy`). On
  every request it either passes the request to the downstream handler or
  redirects to the "activation sent" page. It redirects exactly when the user
  is authenticated, their profile's `email_confirmed` flag is false, the path
  is none of the resolved paths of the routes `accounts:logout`,
  `accounts:account_activation_sent` and `accounts:resend_activation_email`,
  and the path starts with neither `/admin/` nor `/accounts/activate/`.
  The URL resolver `reverse` and the downstream handler `get_response` are
  parameters of `Middleware.Call`: both belong to the web framework.
- **The registration form's email cleaner** (`Forms`, `forms.dfy`). A
  submitted address is refused with the message "Użytkownik z tym adresem
  email już istnieje." when an existing user's address equals it without
  regard to case. Otherwise it is returned exactly as submitted. The user
  table is a sequence of the existing users' addresses. The database's
  case-insensitive match is ASCII case folding (`Forms.Fold`).

Both rules are pure decisions, so both are functions. Around them, lemmas
state what the application promises:

- who is let through and who is redirected;
- that the redirect target is fixed;
- that following the redirect does not redirect again;
- that activation links stay reachable;
- that refusal ignores case and persists as users are added;
- that accepted addresses are not normalised.

## Model

| member | source | states |
|---|---|---|
| `Middleware.ResolveAll` | accounts/middleware.py:31 | the list comprehension over `reverse`: as long as the name list, and entry i is the resolved path of name i |
| `Middleware.StartsWithAny` | accounts/middleware.py:32 | true exactly when some prefix in the list is a prefix of the path |
| `Middleware.InterceptsOnlyUnconfirmed` | accounts/middleware.py:29-30 | for any exact-path list and prefix list, only an authenticated user with an unconfirmed email is ever intercepted |
| `Middleware.WideningAllowListsNeverIntercepts` | accounts/middleware.py:31-32 | adding exact paths or prefixes to the allow-lists never intercepts a request that the smaller lists let through |
| `Middleware.Call` | accounts/middleware.py:15-37 | redirect iff authenticated, unconfirmed, the path is the resolved path of none of the three allowed names, and it starts with neither allowed prefix; a redirect goes to the resolved activation-sent page; otherwise the answer is exactly the downstream handler's response to the same request |
| `Middleware.AnonymousPassesThrough` | accounts/middleware.py:29 | an anonymous request is passed through unchanged, whatever its path |
| `Middleware.ConfirmedPassesThrough` | accounts/middleware.py:30 | a confirmed user is passed through, whatever the path |
| `Middleware.UnlistedPathRedirected` | accounts/middleware.py:28-34 | an unconfirmed user on a path neither exactly allowed nor under an allowed prefix is redirected to the activation-sent page |
| `Middleware.ExactAllowedPathPassesThrough` | accounts/middleware.py:16-20 | any user asking for exactly the resolved path of logout, activation-sent or resend-activation is passed through |
| `Middleware.PrefixedPathPassesThrough` | accounts/middleware.py:23-26 | any user asking for any path under `/admin/` or `/accounts/activate/` is passed through |
| `Middleware.RedirectTargetIsFixed` | accounts/middleware.py:34 | any two redirects go to the same location, whatever the requests |
| `Middleware.RedirectIsNotLooped` | accounts/middleware.py:18 | when a request is redirected, the same user asking for the redirect's location is passed through |
| `Middleware.ActivationLinkPassesThrough` | accounts/urls.py:14 | an unconfirmed user can open `/accounts/activate/<uidb64>/<token>/` for every identifier and token |
| `Middleware.AdminDashboardPassesThrough` | accounts/tests.py:253-257 | an unconfirmed user asking for `/admin/dashboard/` is passed through |
| `Middleware.ProtectedPageRedirected` | accounts/tests.py:234-239 | an unconfirmed user asking for `/protected/` is redirected to the activation-sent page, unless the resolver maps an allowed route to `/protected/` |
| `Forms.FoldChar` | accounts/forms.py:15 | the folded character is never an ASCII capital; a non-capital is unchanged; a capital becomes the small letter at the same alphabet position |
| `Forms.Fold` | accounts/forms.py:15 | same length as the input, and each character is the fold of the input's character at that position |
| `Forms.EmailTaken` | accounts/forms.py:15 | true exactly when some existing address equals the submitted one without regard to case |
| `Forms.CleanEmail` | accounts/forms.py:13-17 | refused iff some existing address matches case-insensitively; a refusal carries the duplicate-address message; an acceptance returns the submitted address itself |
| `Forms.CaseVariantIffIExact` | accounts/forms.py:15 | two strings fold to the same string iff they have equal length and agree position by position up to ASCII case |
| `Forms.RefusedIffVariantRegistered` | accounts/forms.py:15-16 | an address is refused iff some existing address is a case variant of it |
| `Forms.RefusalIgnoresCase` | accounts/forms.py:15 | an address and any case variant of it are refused or accepted alike against the same users |
| `Forms.AcceptedEmailKeepsItsCase` | accounts/forms.py:14-17 | an accepted address containing a capital comes back as submitted, not folded |
| `Forms.RegisteredEmailBlocksVariants` | accounts/forms.py:15-16 | once any address is in the user table, every case variant of it is refused |
| `Forms.RefusalPersists` | accounts/forms.py:15-16 | a table holding every address of a refusing table refuses too, so adding users never turns a refusal into an acceptance |
| `Forms.FreshEmailAccepted` | accounts/tests.py:35-42 | with no users, `charlie@example.com` is accepted unchanged |
| `Forms.CapitalisedDuplicateRefused` | accounts/tests.py:44-53 | with `duplicate@example.com` registered, `Duplicate@example.com` is refused with the duplicate-address message |

## Left out

- The user's `profile` relation is modelled as a confirmed flag carried by an
  authenticated user, so the model assumes every authenticated user has a
  profile. For an authenticated user with no profile row,
  `request.user.profile` (accounts/middleware.py:30) raises, and the model
  does not capture that failure. The one-profile-per-user rule comes from a
  model and a signal that are not part of this model.
- `reverse` is modelled as a total function from route names to paths. In
  the source it can raise `NoReverseMatch` (accounts/middleware.py:31 and
  :34), and that failure is not modelled.
- `reverse` and `get_response` are function parameters. URL routing, the
  project-level URL mount and the response objects are framework code. A
  redirect is modelled by its target path alone.
- `Middleware.Call` treats the downstream handler as a total function of the
  request. Exceptions it raises pass through the middleware untouched in the
  source and are not modelled.
- `Forms.Fold` folds ASCII letters only. A database collation that folds
  more of Unicode can match addresses that this model keeps apart.
- `Forms.CleanEmail` takes the address as a string. The field-level
  validation that runs before it (required, email format) is framework code.
  The framework does not call the cleaner when that validation fails, so the
  `None` that `cleaned_data.get` could return is not modelled.
- The user table is a sequence of existing addresses. The database query,
  users with no address and the rest of the user record are not modelled.
- Activation token generation and checking, sending activation mail, and the
  register, activate and resend views are not part of this model. Their code
  (`utils.py` and those views) is not among the files modelled.
- accounts/views.py and core/views.py hold only template rendering and a
  login success URL, with no decision logic to model.
