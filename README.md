# Route whitelist test and localized web-view exception, in Dafny

This project models two pieces of a small PHP support library for web applications.

- **Route-whitelist reconciliation.** This is the abstract PHPUnit test `AbstractRouteTest`. An application lists its expected routes by hand: each one is a pattern, an HTTP method and a controller name. The test checks that list against the routes the router actually registered. It runs two passes:
  - the forward pass (`testRoutesAreInTheWhitelist`) visits every registered route;
  - the reverse pass (`testAllWhitelistRoutesArePresent`) visits every whitelist entry.

  Each visit filters the other list on pattern and method, and asserts exactly one match. It then compares the two controller names (`compareRoutes`): if both carry a namespace they are compared as they are, otherwise only their class names after the last `\` are compared (`getClassNameFromString`). Last, the expected name must resolve to a non-empty entry in the container.
- **Localized exception message.** `AbstractWebViewException` holds the language it was raised for (default `en`) and a table of messages keyed by language. `getTranslatedMessage` returns the entry for that language.

Files:
- `results.dfy`: the `Option`, `Outcome` and `Result` wrappers.
- `php_strings.dfy`: PHP's `explode`, `implode` and `end` on strings, with their round trips.
- `route_test.dfy`: the route test.
- `web_view_exception.dfy`: the exception class.

How the route test is modelled:
- The router's routes are a sequence of `AppRoute(pattern, methods, callable)`.
- The whitelist is a sequence of `WhitelistEntry(pattern, httpMethod, controller)`.
- The container lookup is a predicate passed in: `registered(name)` holds when the container yields a non-empty entry for `name`.
- A PHPUnit assertion throws, so each pass stops at its first failure. The model returns `Pass`, or `Fail(Violation(pattern, reason))` for the first route or entry, in list order, whose check failed.
- `array_filter` is the specification function `Select` plus the loop `FilterByKey`. `current()` of an empty methods array is PHP's `false`, which matches no whitelist method; the model uses `None` for it.
- The passes are loop methods (`TestRoutesAreInTheWhitelist`, `TestAllWhitelistRoutesArePresent`). Each is proved equal to a specification function (`ForwardPass`, `ReversePass`), and the properties are proved about those functions.

The exception is a class with the fields `errorMessages` and `lang`. `TranslatedMessage` is a read-only function on them.

## Model

| member | source | states |
|---|---|---|
| `PhpStrings.Last` | src/Test/AbstractRouteTest.php:131 | `end` of a non-empty array returns one of its elements (the last one; with `LastPieceAfterDelimiter`, the text after the last delimiter) |
| `PhpStrings.Explode` | src/Test/AbstractRouteTest.php:130 | `explode` gives at least one piece; no piece holds the delimiter; there is exactly one piece iff the string has no delimiter |
| `PhpStrings.ImplodeExplode` | src/Test/AbstractRouteTest.php:130 | joining the pieces of a name with `\` gives the name back |
| `PhpStrings.ExplodeImplode` | src/Test/AbstractRouteTest.php:130 | splitting a join of delimiter-free pieces gives the same pieces back |
| `PhpStrings.LastPieceAfterDelimiter` | src/Test/AbstractRouteTest.php:130-131 | the last piece of `a\t` is `t` whenever `t` has no `\`, whatever `a` holds |
| `RouteTest.ClassNameFromString` | src/Test/AbstractRouteTest.php:128-132 | `getClassNameFromString` returns the text after the last `\`: it has no `\`, is a suffix of the name, and is either the whole name or stands right after a `\` |
| `RouteTest.HasNamespace` | src/Test/AbstractRouteTest.php:109 | `count(explode('\\', name)) > 1` holds exactly when the name contains a `\` |
| `RouteTest.ClassNameOfBareName` | src/Test/AbstractRouteTest.php:128-132 | a name without `\` is returned unchanged |
| `RouteTest.ClassNameAfterLastSeparator` | src/Test/AbstractRouteTest.php:128-132 | whatever stands before the last `\` is dropped: `p\t` gives `t` when `t` has no `\` |
| `RouteTest.ClassNameIdempotent` | src/Test/AbstractRouteTest.php:128-132 | taking the class name twice equals taking it once |
| `RouteTest.CompareRoutes` | src/Test/AbstractRouteTest.php:103-122 | if both names contain `\`, it passes iff they are identical and the expected name is registered; otherwise it passes iff the class names are equal and the expected class name is registered; every failure is a name mismatch or a missing registration; the names are compared before the container is asked, so differing names always fail as a mismatch of the compared names (even when the expected one is also unregistered), and a missing registration is reported only when the names agree |
| `RouteTest.QualifiedNamesComparedVerbatim` | src/Test/AbstractRouteTest.php:109-117 | `A\Foo` against `B\Foo` fails the name check |
| `RouteTest.BareNameMatchesQualifiedHandler` | src/Test/AbstractRouteTest.php:112-121 | `Foo` against `App\Controller\Foo` passes when `Foo` is registered |
| `RouteTest.Select` | src/Test/AbstractRouteTest.php:59-61 | the filter never lengthens its input, and every survivor carries the key |
| `RouteTest.SelectMembers` | src/Test/AbstractRouteTest.php:59-61 | every survivor of the filter is an element of the input, and every element of the input with the key survives |
| `RouteTest.SelectAgrees` | src/Test/AbstractRouteTest.php:59-61 | filtering two sequences that agree position by position on the key and on a projection gives as many survivors from each, agreeing position by position on that projection |
| `RouteTest.SelectOne` | src/Test/AbstractRouteTest.php:59-65 | exactly one element survives the filter iff exactly one index carries the key, and the survivor is the element at that index |
| `RouteTest.FilterByKey` | src/Test/AbstractRouteTest.php:59-61 | the filtering loop returns exactly the filtered sequence, order kept |
| `RouteTest.FirstFail` | src/Test/AbstractRouteTest.php:53-70 | checks run in order pass iff every check passes, and otherwise report one of the failures |
| `RouteTest.FirstFailAt` | src/Test/AbstractRouteTest.php:53-70 | the failure reported is the first one in order |
| `RouteTest.FirstMethod` | src/Test/AbstractRouteTest.php:56 | `current($methods)` yields a method exactly when the route has one, and then it is the first; for no methods it yields the `false` that matches no whitelist method |
| `RouteTest.CheckAppRoute` | src/Test/AbstractRouteTest.php:54-69 | one iteration of the forward loop passes only when the filter left exactly one whitelist entry, and any failure names the route's pattern; `CheckAppRouteSpec` gives the full condition |
| `RouteTest.CheckAppRouteSpec` | src/Test/AbstractRouteTest.php:53-69 | an application route passes iff exactly one whitelist entry has its pattern and first method and that entry's controller compares equal and is registered; a failure names the route's pattern |
| `RouteTest.CheckAppRouteCount` | src/Test/AbstractRouteTest.php:59-65 | a route with no whitelist entry fails the count with 0; a route with two or more fails it with the number found (at least 2) |
| `RouteTest.ForwardPass` | src/Test/AbstractRouteTest.php:47-71 | the forward pass passes iff every application route passes; otherwise its failure is that of one of the routes |
| `RouteTest.ForwardStopsAtFirstViolation` | src/Test/AbstractRouteTest.php:53-70 | the forward pass reports the first failing application route in router order |
| `RouteTest.TestRoutesAreInTheWhitelist` | src/Test/AbstractRouteTest.php:47-71 | the loop over application routes, with its filter and early exit, computes exactly the forward pass |
| `RouteTest.UnlistedRouteFailsForward` | src/Test/AbstractRouteTest.php:59-65 | a registered route missing from the whitelist makes the forward pass fail; if no earlier route failed, the failure is a count of 0 naming that route's pattern |
| `RouteTest.CheckWhitelistEntry` | src/Test/AbstractRouteTest.php:82-95 | one iteration of the reverse loop, with the first method read by `current($route->getMethods())` at line 86, passes only when the filter left exactly one application route, and any failure names the entry's pattern; `CheckWhitelistEntrySpec` gives the full condition |
| `RouteTest.CheckWhitelistEntrySpec` | src/Test/AbstractRouteTest.php:81-95 | a whitelist entry passes iff exactly one application route has its pattern and, as first method, its method, and that route's handler compares equal and is registered; a failure names the entry's pattern |
| `RouteTest.CheckWhitelistEntryCount` | src/Test/AbstractRouteTest.php:85-91 | an entry with no matching route fails the count with 0; an entry with two or more matching routes fails it with the number found (at least 2) |
| `RouteTest.ReversePass` | src/Test/AbstractRouteTest.php:76-97 | the reverse pass passes iff every whitelist entry passes; otherwise its failure is that of one of the entries |
| `RouteTest.ReverseStopsAtFirstViolation` | src/Test/AbstractRouteTest.php:81-96 | the reverse pass reports the first failing whitelist entry in whitelist order |
| `RouteTest.TestAllWhitelistRoutesArePresent` | src/Test/AbstractRouteTest.php:76-97 | the loop over whitelist entries, with its filter and early exit, computes exactly the reverse pass |
| `RouteTest.MissingRouteFailsReverse` | src/Test/AbstractRouteTest.php:85-91 | a whitelist entry that no application route matches makes the reverse pass fail; if no earlier entry failed, the failure is a count of 0 naming that entry's pattern |
| `RouteTest.ReconciledPasses` | src/Test/AbstractRouteTest.php:47-97 | both passes succeed when four things hold: whitelist keys are unique, application keys are unique, the two key sets are equal, and every matched controller pair compares equal and is registered |
| `RouteTest.PassesReconciled` | src/Test/AbstractRouteTest.php:47-97 | conversely, when both passes succeed, all four of those conditions hold |
| `RouteTest.BothPassesIffReconciled` | src/Test/AbstractRouteTest.php:47-97 | both passes succeed iff the whitelist and the router are reconciled in that sense |
| `RouteTest.PassesIgnoreLaterMethods` | src/Test/AbstractRouteTest.php:55-86 | routes that agree on pattern, handler and first method (both having none counts as agreeing) give both passes the same result, so extra methods never cause or prevent a match |
| `RouteTest.SingleRouteByClassName` | src/Test/AbstractRouteTest.php:109-121 | one route bound to `ns\Name` and whitelisted as `Name` with its first method passes both tests when `Name` is registered |
| `WebViewException.AbstractWebViewException.constructor` | src/Exception/AbstractWebViewException.php:22-25 | the language given is stored unchanged, and it defaults to `en` |
| `WebViewException.EnglishByDefault` | src/Exception/AbstractWebViewException.php:22-25 | an exception built without a language holds `en` |
| `WebViewException.AbstractWebViewException.TranslatedMessage` | src/Exception/AbstractWebViewException.php:37-44 | if the held language is a key of the table, the result is exactly that entry; otherwise no string comes back, even when an `en` entry exists |
| `WebViewException.LookupDependsOnlyOnLanguageAndTable` | src/Exception/AbstractWebViewException.php:37-44 | two exceptions with the same language and table give the same lookup result |
| `WebViewException.AbstractWebViewException.DocumentedMessage` | src/Exception/AbstractWebViewException.php:28-33 | the documented behaviour: the held language's entry, else the `en` entry, else nothing |
| `WebViewException.FallbackGap` | src/Exception/AbstractWebViewException.php:28-44 | code and documentation agree on whether a message exists iff the held language has an entry or there is no `en` entry; whenever the code returns a message, it is the documented one |
| `WebViewException.FrenchWithEnglishOnly` | src/Exception/AbstractWebViewException.php:39-43 | language `fr` with only an `en` entry: the code yields no string, but the documentation promises the `en` text |

## Left out

- The dependency-injection container and the router are outside objects. The route list `$container->get('router')->getRoutes()` is an input sequence. `$container->get($name)` followed by `assertNotEmpty` is the `registered` predicate; a container that throws for an unknown name is the same as one that returns an empty entry.
- `getCallable()` may return a closure or an array callable in the framework. The model only handles handler names given as strings, which is what `compareRoutes`' `string` parameter type accepts.
- Assertion messages are not modelled as text. Only the count assertion's message names the pattern. The model attaches the pattern of the route or entry being checked to every failure. Both passes use the same message wording, "is not present in the whitelist", even when the reverse pass finds a route missing from the router.
- `current()` reads an array's internal pointer. The model takes the first element, which is where the pointer stands on the fresh array `getMethods()` returns.
- Route patterns are opaque strings compared with `===`; the regular-expression placeholders in them play no part.
- HTTP methods are arbitrary strings, not an enumeration of GET/POST/PUT/DELETE: the code compares them with `===` and never restricts them.
- PHPUnit machinery (`TestCase`, `assertCount`, `assertEquals`, `assertNotEmpty`) is replaced by the `Pass`/`Fail` result.
- `isset` is false for a `null` entry; the model's table holds strings only, so that case is absent.
- Reading the missing `'en'` entry on the fallback path also raises a PHP warning before the TypeError. The model reports only the missing string (`NoStringReturned`).
- The call to the parent constructor of the unseen `AbstractException`, and the formatting of the error response, are not part of this model.
- The controller base class and its test (`tests/Slim/Controller/AbstractControllerTest.php`) are not part of this model: the test only drives framework mocks of `AbstractController`.
- `getTranslatedMessage` changes neither the table nor the held language. The model holds this by construction, since `TranslatedMessage` is a function that only reads the object.

## Findings

| source | as written | input that shows it | evidently intended | confidence | as-written member | corrected member |
|---|---|---|---|---|---|---|
| src/Exception/AbstractWebViewException.php:41-43 | when the held language has no entry, the else-branch reads `$this->errorMessages['en']` and drops it, so the `string`-typed function returns nothing and PHP raises a TypeError | an exception raised with language `fr` and the table `['en' => 'Not found']` | return the English entry, as the doc comment at lines 28-33 says | not executed; the missing `return` is visible in the source | `WebViewException.FrenchWithEnglishOnly` | `WebViewException.AbstractWebViewException.DocumentedMessage` |
