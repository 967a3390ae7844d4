# Monolog Cascade: constructor resolver and file-loader helpers

This project models two parts of Monolog Cascade's configuration layer.

**The constructor resolver.** It is built once from a reflected class. It keeps a table of the class's constructor parameters, keyed by the camel-cased parameter name and held in declaration order. Given an unordered PHP array of named options, it returns the positional argument list for the constructor. Along the way it:
- rejects options whose keys name no parameter ("undefined options");
- rejects options that leave a mandatory parameter out ("missing options");
- fills every optional parameter that is left out with its declared default.

`hashToArgsArray` is the plain reordering step and does no validation.

**The file-loader helpers.** `validateExtension` checks a path's extension against the loader's list of valid extensions. `getSectionOf` returns one top-level section of a configuration array, or the whole array when the section is empty or absent.

How the pieces are represented:
- PHP arrays are ordered lists of key/value pairs (`PhpValues`). Keys are names or integers, so a list literal such as `array('ABC')` has the key `Index(0)`.
- Reflection is replaced by explicit data (`Signature`): a class is a name plus, when it declares a constructor, the list of its parameters. Each parameter has a name and an optional default; its position is its index in the list.
- The `SampleClass` fixture, `__construct($mandatory, $optionalA = 'AAA', $optionalB = 'BBB', $optional_snake = 'snake')`, is written out in `Fixtures`. Every row of the resolver's data providers is proved there, for any valid resolver built from `SampleClass`; `NewSampleResolver`, the tests' `setUp`, builds one.
- Each data provider of the missing-options and invalid-options tests returns one row of three arrays, and PHPUnit binds only the first to the test's single parameter. The model proves the expected outcome for all three arrays of each row.

Modules, in dependency order:
- `Wrappers`: `Option` and `Result`.
- `PhpValues`: PHP arrays, keys, lookups, and the fact that key order does not matter to a lookup.
- `Naming`: snake_case to camelCase, used as the parameter key function.
- `Signature`: reflected classes and the parameter table.
- `ConstructorResolving`: the resolver class and its lemmas.
- `Fixtures`: `SampleClass` and the test rows.
- `FileLoading`: `validateExtension` and `getSectionOf`.

The resolver's table is built by a loop in its constructor, and is proved equal to the function `BuildTable`. All other operations are pure functions, as in the source.

## Model

| member | source | states |
|---|---|---|
| ConstructorResolving.ConstructorResolver.constructor | tests/Config/Loader/ClassLoader/Resolver/ConstructorResolverTest.php:43-48 | the resolver keeps the class it is built with (`getReflected()` is that class), and its table is the parameters inserted one by one in declaration order |
| Fixtures.NewSampleResolver | tests/Config/Loader/ClassLoader/Resolver/ConstructorResolverTest.php:73-76 | the resolver built for `SampleClass` is valid and `getReflected()` names `Cascade\Tests\Fixtures\SampleClass` |
| Fixtures.SampleTable | tests/Config/Loader/ClassLoader/Resolver/ConstructorResolverTest.php:84-92 | for `SampleClass` the table's keys are exactly `mandatory, optionalA, optionalB, optionalSnake`, in that order, and each key holds the parameter declared at that position |
| Fixtures.OptionalSnakeKey | tests/Config/Loader/ClassLoader/Resolver/ConstructorResolverTest.php:88-89 | the snake-cased parameter `optional_snake` is keyed `optionalSnake` |
| Signature.BuildTableInOrder | tests/Config/Loader/ClassLoader/Resolver/ConstructorResolverTest.php:84-92 | when no two parameters share a camel-cased name, the table has one key per parameter, the i-th key is the i-th parameter's camel-cased name, and it holds that parameter |
| Signature.BuildTableKeysInOrder | tests/Config/Loader/ClassLoader/Resolver/ConstructorResolverTest.php:88-91 | when no two parameters share a camel-cased name (`DistinctCamelNames`), the key order of the table is the declaration order of the parameters' camel-cased names |
| Signature.BuildTableLastWins | tests/Config/Loader/ClassLoader/Resolver/ConstructorResolverTest.php:88-89 | a parameter's key holds that parameter unless a later parameter has the same camel-cased name (PHP's `$t[$k] = $p` overwrites in place) |
| Signature.Insert | tests/Config/Loader/ClassLoader/Resolver/ConstructorResolverTest.php:89 | the camel-cased key ends up holding the inserted parameter, and the key order grows by at most that one key |
| Signature.InsertWellFormed | tests/Config/Loader/ClassLoader/Resolver/ConstructorResolverTest.php:89 | inserting keeps every existing key in its place and keeps the key order in step with the contents |
| Signature.BuildTable | tests/Config/Loader/ClassLoader/Resolver/ConstructorResolverTest.php:86-90 | the table built by the `foreach` over the parameters has at most one key per parameter |
| Signature.BuildTableWellFormed | tests/Config/Loader/ClassLoader/Resolver/ConstructorResolverTest.php:86-91 | the key order lists every key of the table exactly once |
| Signature.BuildTableKeySource | tests/Config/Loader/ClassLoader/Resolver/ConstructorResolverTest.php:88-89 | every key of the table is the camel-cased name of some parameter |
| Naming.SnakeToCamelIdentity | tests/Config/Loader/ClassLoader/Resolver/ConstructorResolverTest.php:81-89 | a name without underscores that starts in lower case is mapped to itself, so `mandatory`, `optionalA` and `optionalB` are their own keys |
| ConstructorResolving.ConstructorResolver.GetReflected | tests/Config/Loader/ClassLoader/Resolver/ConstructorResolverTest.php:73-76 | for a valid resolver, the class returned is the one whose constructor the table indexes |
| ConstructorResolving.ConstructorResolver.GetConstructorArgs | tests/Config/Loader/ClassLoader/Resolver/ConstructorResolverTest.php:84-92 | for a valid resolver, the table returned is the camel-cased table of the reflected constructor's parameters, with every key listed once |
| ConstructorResolving.ConstructorResolver.HashToArgsArray | tests/Config/Loader/ClassLoader/Resolver/ConstructorResolverTest.php:97-110 | the reordered list has one value per table key, and the i-th value is the hash's value under the i-th table key (null when the hash lacks it) |
| Fixtures.HashToArgsArrayOrders | tests/Config/Loader/ClassLoader/Resolver/ConstructorResolverTest.php:97-110 | the shuffled hash `optionalB, optionalA, optionalSnake, mandatory` is reordered to `someValue, hello, there, slither` |
| ConstructorResolving.HashToArgsArrayPermutation | tests/Config/Loader/ClassLoader/Resolver/ConstructorResolverTest.php:102-107 | two hashes with the same pairs in any order reorder to the same list |
| ConstructorResolving.DefaultsNotIn | tests/Config/Loader/ClassLoader/Resolver/ConstructorResolverTest.php:115-142 | the defaults added are exactly the optional table keys the options leave out, each paired with its parameter's default |
| ConstructorResolving.ConstructorResolver.WithDefaults | tests/Config/Loader/ClassLoader/Resolver/ConstructorResolverTest.php:132-142 | after the merge a supplied option keeps its value, a table key left out reads as its parameter's default (none when mandatory), and no other key appears |
| ConstructorResolving.ConstructorResolver.Resolve | tests/Config/Loader/ClassLoader/Resolver/ConstructorResolverTest.php:154-157 | a successful resolution has exactly one value per table key (per constructor parameter when camel-cased names are distinct, see `ResolveInDeclarationOrder`) |
| ConstructorResolving.ResolveSucceeds | tests/Config/Loader/ClassLoader/Resolver/ConstructorResolverTest.php:154-157 | resolution succeeds if and only if every option key names a parameter and every mandatory parameter is supplied |
| ConstructorResolving.ResolveArgs | tests/Config/Loader/ClassLoader/Resolver/ConstructorResolverTest.php:115-142 | on success, the i-th value is the option supplied for the i-th table key, or that parameter's default when the option is left out |
| ConstructorResolving.ResolveValues | tests/Config/Loader/ClassLoader/Resolver/ConstructorResolverTest.php:154-157 | on success, the result is fixed by what each parameter is owed (supplied value or default) |
| ConstructorResolving.ResolveInDeclarationOrder | tests/Config/Loader/ClassLoader/Resolver/ConstructorResolverTest.php:115-118 | when camel-cased names are distinct, the i-th value belongs to the i-th declared parameter: its supplied value under its camel-cased name, else its default |
| ConstructorResolving.ResolvePermutation | tests/Config/Loader/ClassLoader/Resolver/ConstructorResolverTest.php:115-131 | the order of the options does not matter: options with the same pairs in any order resolve to the same outcome, success or error |
| ConstructorResolving.ResolveUndefined | tests/Config/Loader/ClassLoader/Resolver/ConstructorResolverTest.php:223-233 | the undefined-options error is raised if and only if some key names no parameter, and it names exactly those keys |
| ConstructorResolving.ResolveMissing | tests/Config/Loader/ClassLoader/Resolver/ConstructorResolverTest.php:184-194 | the missing-options error is raised if and only if every key is known but some mandatory parameter is not supplied, and it names exactly the missing mandatory parameters |
| ConstructorResolving.UndefinedBeforeMissing | tests/Config/Loader/ClassLoader/Resolver/ConstructorResolverTest.php:204-212 | when a key is unknown and a mandatory parameter is also missing, the undefined-options error is the one raised |
| ConstructorResolving.DefaultsDependOnKeys | tests/Config/Loader/ClassLoader/Resolver/ConstructorResolverTest.php:115-118 | the defaults added for left-out parameters depend only on which keys the options hold |
| Fixtures.ResolveFullOptions | tests/Config/Loader/ClassLoader/Resolver/ConstructorResolverTest.php:123-131 | `{optionalB: there, optionalA: hello, mandatory: someValue, optionalSnake: slither}` resolves to `someValue, hello, there, slither` |
| Fixtures.ResolvePartialOptions | tests/Config/Loader/ClassLoader/Resolver/ConstructorResolverTest.php:132-138 | `{mandatory: someValue, optionalA: hello}` resolves to `someValue, hello, BBB, snake` |
| Fixtures.ResolveMandatoryOnly | tests/Config/Loader/ClassLoader/Resolver/ConstructorResolverTest.php:139-142 | `{mandatory: someValue}` resolves to `someValue, AAA, BBB, snake` |
| Fixtures.SampleResolves | tests/Config/Loader/ClassLoader/Resolver/ConstructorResolverTest.php:120-157 | for `SampleClass`, any options that use only the four keys and supply `mandatory` resolve to the supplied values, with `AAA`, `BBB`, `snake` for the optional parameters left out |
| Fixtures.ResolveWithMissingOptions | tests/Config/Loader/ClassLoader/Resolver/ConstructorResolverTest.php:167-194 | the empty array, `{optionalB}` and `{optionalB, optionalA}` are each rejected as missing exactly `mandatory` |
| Fixtures.MissingFirstKey | tests/Config/Loader/ClassLoader/Resolver/ConstructorResolverTest.php:184-194 | options made only of optional keys are rejected as missing exactly the one mandatory parameter |
| Fixtures.ResolveListLiteral | tests/Config/Loader/ClassLoader/Resolver/ConstructorResolverTest.php:207-208 | `array('ABC')` is rejected as undefined, naming only the integer key 0, though `mandatory` is missing too |
| Fixtures.ResolveAllInvalid | tests/Config/Loader/ClassLoader/Resolver/ConstructorResolverTest.php:209-212 | `{someInvalidOptionA, someInvalidOptionB}` is rejected as undefined, naming both keys |
| Fixtures.ResolveSomeInvalid | tests/Config/Loader/ClassLoader/Resolver/ConstructorResolverTest.php:213-218 | `{optionalB, optionalA, mandatory, additionalInvalid}` is rejected as undefined, naming only `additionalInvalid` |
| PhpValues.Lookup | tests/Config/Loader/ClassLoader/Resolver/ConstructorResolverTest.php:101-108 | a lookup fails exactly when the key is absent, and a value it finds is paired with the key in the array |
| PhpValues.LookupPermutation | tests/Config/Loader/ClassLoader/Resolver/ConstructorResolverTest.php:115-117 | two arrays with distinct keys holding the same pairs in any order have the same keys and the same lookups |
| PhpValues.LookupFinds | tests/Config/Loader/ClassLoader/Resolver/ConstructorResolverTest.php:102-107 | in an array with distinct keys, looking a key up finds the one pair holding it |
| FileLoading.DottedSuffixIsExtension | tests/Config/Loader/FileLoader/FileLoaderAbstractTest.php:83-88 | a path ending in a dot followed by a non-empty run free of dots and slashes has that run as its extension |
| FileLoading.ExtensionIsDottedSuffix | tests/Config/Loader/FileLoader/FileLoaderAbstractTest.php:83-88 | conversely, a non-empty extension is what follows the last dot of the path's last component, and that component has no slash |
| FileLoading.Basename | tests/Config/Loader/FileLoader/FileLoaderAbstractTest.php:83-90 | the last path component holds no slash, and a path without a slash is its own last component |
| FileLoading.Extension | tests/Config/Loader/FileLoader/FileLoaderAbstractTest.php:83-92 | an extension holds neither a dot nor a slash |
| FileLoading.NoDotNoExtension | tests/Config/Loader/FileLoader/FileLoaderAbstractTest.php:89-90 | a path without a dot, the empty path included, has the empty extension |
| FileLoading.ValidateDottedSuffix | tests/Config/Loader/FileLoader/FileLoaderAbstractTest.php:101-108 | a path ending in `.e`, with `e` a plain extension, is valid if and only if `e` is in the list |
| FileLoading.ValidateExtension | tests/Config/Loader/FileLoader/FileLoaderAbstractTest.php:101-108 | a path without a dot, the empty path included, is valid if and only if the list contains the empty extension |
| FileLoading.ListedExtensionsAccepted | tests/Config/Loader/FileLoader/FileLoaderAbstractTest.php:86-87 | with the list `test, php`, `hello/world.test` and `hello/world.php` are valid |
| FileLoading.OtherPathsRejected | tests/Config/Loader/FileLoader/FileLoaderAbstractTest.php:88-90 | with the list `test, php`, `hello/world.jpeg`, `hello/world` and the empty path are not valid |
| FileLoading.GetSectionOf | tests/Config/Loader/FileLoader/FileLoaderAbstractTest.php:115-150 | a present non-empty section yields a value paired with it in the array, and with distinct keys exactly the value paired with it; an empty section, or one that no entry holds, yields the very array given |
| FileLoading.GetSectionOfNested | tests/Config/Loader/FileLoader/FileLoaderAbstractTest.php:118-125 | section `b` of `{a: {aa, ab}, b: {ba, bb}}` is `{ba: BA, bb: BB}` |
| FileLoading.GetSectionOfFallback | tests/Config/Loader/FileLoader/FileLoaderAbstractTest.php:126-135 | section `c` and the empty section of `{a: A, b: B}` are the whole array |

## Left out

- The implementation files (`ConstructorResolver.php`, `FileLoaderAbstract.php`, `Util.php` and the `SampleClass` fixture) are not part of this model. The behaviour modelled is the behaviour their tests fix.
- PHP reflection (`ReflectionClass`, `ReflectionParameter`) is replaced by the explicit class and parameter data in `Signature`.
- Symfony's `OptionsResolver` is modelled by its outcome, not by its internals. The steps are: the undefined-key check, then the missing-key check, then the defaults merged in, then reordering by `hashToArgsArray`. The exceptions become the two cases of `ResolveError`.
- The resolver checks unknown keys before missing ones. The tests expect an undefined-options error for `array('ABC')` and for the "All invalid" row, although `mandatory` is missing from both. Some descriptions of the resolver give the opposite order; the model follows the tests.
- The resolver matches option keys as given against the camel-cased parameter keys; it does not convert snake_case option keys. The tests only supply camel-cased keys.
- The snake_case to camelCase conversion is a minimal key function. It drops underscores, upper-cases the character after each run of them, and lower-cases the first character. The model proves its result on `optional_snake` and, for all inputs, that a name without underscores starting in lower case is its own key (`Naming.SnakeToCamelIdentity`). Its behaviour on other inputs is not tied to `Util::snakeToCamelCase`.
- A class without a constructor gets an empty parameter table. It is not treated as an error.
- PHP arrays cannot hold a key twice, but the list model can. Lookups take the first pair with a key, and the order-independence lemmas require distinct keys.
- PHP turns numeric-string keys such as `"0"` into integer keys; the model keeps names and integers apart.
- HashToArgsArray: gives `Null` for a table key the hash lacks. PHP's `$hash[$name]` also yields null there but raises an undefined-index notice, which the model does not capture; no test passes such a hash.
- ValidateExtension: treats the list as plain strings and tests membership exactly. PHP's `in_array` compares loosely, so numeric-looking extensions can behave differently there.
- GetSectionOf: treats only the empty string as an empty section name. PHP's `empty()` also holds for the string `"0"`. Because names and integers are kept apart, `GetSectionOf(a, "1")` does not find an integer key `1`, whereas PHP's `array_key_exists('1', $a)` does and returns `$a[1]`.
- The static `$validExtensions` list is passed to `ValidateExtension` as a parameter instead of being kept as mutable static state.
- `readFrom`, which reads a file or trims a string and fails on an unreadable file, is file-system I/O and is left out.
- The YAML and PHP-array loaders (`tests/Config/Loader/FileLoader/YamlTest.php`, `tests/Config/Loader/PhpArrayTest.php`) are left out. They delegate to a YAML parser and to `is_array`/file checks.
