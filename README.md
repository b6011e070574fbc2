# Password generator model

A Dafny model of the password generator tool in `server.py`. It covers the
complexity tiers (the `CHARSETS` table: `simple`, `strong`, `maximum`) and
`generate_password`, which does the following in order:

- checks the length (1 to 1024) and then the tier name, each with its own
  error message;
- draws one lowercase letter, one uppercase letter and one digit;
- fills the remaining `length - 3` positions. When they fit, it samples
  distinct characters other than the required three. Otherwise it draws
  with repetition from the whole tier;
- appends the required three characters and shuffles the list in place.

Modules:

- `Wrappers`: `Option` and `Result`.
- `Sequences`: duplicate-freedom, the list comprehension
  `[x for x in s if x not in excluded]` (`Without`) and `set(s)` read back as
  a list (`Dedup`).
- `Charsets`: Python's `string` constants, built from ASCII code ranges, and
  the three tiers.
- `Shuffling`: `random.shuffle` as a function (`FisherYates`) and as an
  in-place array method (`Shuffle`).
- `Generator`: validation, the required draws, the fill, the whole call as a
  function (`Generate`) and as a method (`GeneratePassword`).

Randomness is a parameter. A `Draws` value holds every position the random
module returns during one call:

- the three `random.choice` draws;
- the positions `random.sample` picks;
- the positions `random.choices` picks;
- the positions `random.shuffle` swaps with.

`Admissible` states what the random module guarantees about these
positions: they are in range, the sampled ones are pairwise distinct, and
there is one shuffle draw j <= i for each i from n - 1 down to 1. The
results are proved for every admissible `Draws`.

The outcome is a `Password`, an `Error` carrying the message of the JSON
error object, or a `Crash`. `Crash` stands for the `ValueError` that
`random.sample` raises for lengths 1 and 2. Those lengths pass the range
check, but then ask for a negative number of sampled characters. The model follows the
code here: a call with length 1 or 2 ends in that exception, not in a
password or an error object.

## Model

| member | source | states |
|---|---|---|
| Sequences.Without | server.py:50 | the comprehension keeps exactly the elements of the list not in the excluded list, is no longer, and is duplicate-free if the list is |
| Sequences.WithoutSize | server.py:49-50 | removing three distinct characters that all belong to a duplicate-free charset leaves exactly `len(charset) - 3` characters |
| Sequences.Dedup | server.py:49-50 | `set(charset)` as a list is duplicate-free, has the same members, and equals the charset when the charset has no repeats |
| Sequences.ElemsCard | server.py:49 | a list has at most as many distinct values as positions, exactly as many iff it is duplicate-free |
| Sequences.DistinctWithin | server.py:53 | pigeonhole: a duplicate-free list drawn from a pool is no longer than the pool |
| Sequences.PermutationKeepsDistinct | server.py:56 | reordering keeps a list duplicate-free |
| Charsets.CharRangeContents | server.py:13 | an ASCII code range holds exactly the characters between its ends, each once |
| Charsets.ParseTier | server.py:33 | a name is accepted iff it is a registry key, and the tier found carries that name |
| Charsets.ClassRanges | server.py:41-43 | `ascii_lowercase`, `ascii_uppercase` and `digits` hold exactly the lowercase letters, uppercase letters and digits, 26, 26 and 10 of them, each once |
| Charsets.PunctuationContents | server.py:15 | `string.punctuation` holds exactly the 32 non-alphanumeric characters from `!` to `~`, each once |
| Charsets.MaximumCharset | server.py:15 | the maximum tier is digits, letters and punctuation in that order, which are exactly the characters `!` to `~` |
| Charsets.CharsetLength | server.py:12-16 | the tiers have 62, 76 and 94 characters |
| Charsets.CharsetDistinct | server.py:12-16 | no tier lists a character twice |
| Charsets.CharsetCoversClasses | server.py:12-16 | every tier contains every lowercase letter, uppercase letter and digit |
| Shuffling.FisherYatesPermutes | server.py:56 | the shuffle keeps the length and the multiset of elements |
| Shuffling.FisherYatesLast | server.py:56 | the last position receives the element at the first drawn position |
| Shuffling.FisherYatesReachesAll | server.py:56 | every rearrangement of the list is produced by some admissible draws |
| Shuffling.FisherYatesInjective | server.py:56 | on a duplicate-free list, different draws give different arrangements |
| Shuffling.ShuffleLoopIsFisherYates | server.py:56 | running the swap loop from position m shuffles the first m elements and leaves the rest in place |
| Shuffling.SwapElements | server.py:56 | one loop step exchanges the two array positions and changes nothing else |
| Shuffling.Shuffle | server.py:56 | the in-place loop on the array leaves exactly the Fisher-Yates arrangement of the old contents |
| Generator.TierErrorText | server.py:34 | the tier error lists the keys in registry order: "simple, strong, maximum" |
| Generator.Validate | server.py:30-34 | an out-of-range length gives the length error whatever the name; an in-range length with an unknown name gives the tier error; otherwise the tier with that name |
| Generator.Required | server.py:40-44 | three characters: a lowercase letter, an uppercase letter and a digit, pairwise distinct |
| Generator.Sample | server.py:51 | `random.sample` fails iff k < 0 or k exceeds the population; otherwise it gives k members of the population, distinct when the population is |
| Generator.Choices | server.py:53 | `random.choices` gives max(k, 0) members of the population |
| Generator.AvailableSize | server.py:49-50 | the set of the charset is the charset, the required characters belong to it, and `available` has `len(charset) - 3` characters |
| Generator.SampleBranchThreshold | server.py:49 | the sampling branch is taken iff the length is at most the tier size |
| Generator.Fill | server.py:46-53 | the fill fails iff length < 3; otherwise it has `length - 3` tier characters, and up to the tier size they are distinct and differ from the required ones |
| Generator.Generate | server.py:30-34 | the whole call reports the length error first and the tier error second |
| Generator.ShortLengthCrashes | server.py:46-51 | lengths 1 and 2 pass validation and end in the `random.sample` error |
| Generator.PasswordLength | server.py:46-57 | for lengths 3 to 1024 and a valid tier the call yields a password of exactly the requested length |
| Generator.PasswordIsShuffledAssembly | server.py:55-56 | the password is a rearrangement of the fill followed by the required characters |
| Generator.PasswordCoversClasses | server.py:40-56 | the password contains a lowercase letter, an uppercase letter and a digit |
| Generator.PasswordWithinCharset | server.py:36-56 | every character of the password belongs to the requested tier |
| Generator.PasswordDistinctIff | server.py:49-56 | the password's characters are pairwise distinct iff the length is at most the tier size (62, 76, 94) |
| Generator.DefaultPassword | server.py:19 | the default call (12, "strong") yields 12 distinct characters of the strong tier |
| Generator.GeneratePassword | server.py:19-57 | the imperative call, with an in-place array shuffle, returns exactly what `Generate` describes, and any password has the requested length |

## Left out

- The MCP server (`FastMCP`, the `@mcp.tool()` registration, the stdio transport): plumbing around the tool, not its logic.
- The unused imports (`httpx`, `datetime`, `typing.Any`): nothing in the tool uses them.
- `json.dumps` escaping: the outcome is the string that goes into the `password` or `error` field, not its JSON encoding.
- `unique_charset` (server.py:37): it is computed and never used, so it has no observable effect.
- The iteration order of `set(charset)`: Python leaves it arbitrary. The model reads the set back in first-occurrence order. The sampled positions are arbitrary distinct positions, so every reachable fill is still reachable in the model.
- The quality and distribution of the random module: draws are parameters. The model proves which outputs are reachable, that the shuffle reaches every arrangement, and that it is one-to-one on distinct input. It does not prove uniform probabilities.
- Arguments of the wrong type (a non-integer length, a non-string name): the tool's type annotations exclude them before the function body runs.
- Generator.Sample: states membership and distinctness of the sample, not which positions the draws pick, because the draws are arbitrary.
- Generator.Generate: its own contract states only the validation order. The password cases are stated by the lemmas after it and by `GeneratePassword`.
