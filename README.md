# Dinosaur facts — a Dafny model

This project models `src/01-dinosaur-facts.js` of the dinosaur-museum
exercise repository. The file holds three queries over an array of
dinosaur records:

- `getLongestDinosaur` scans the records with a running maximum of the
  length in feet (`lengthInMeters * 3.281`). It starts from height 0 and
  name `null` and replaces the maximum only on a strictly greater height,
  so the first longest record wins. It returns `{ name: height }`, or `{}`
  when nothing beat 0 or the winner's name is empty.
- `getDinosaurDescription` finds the first record whose `dinosaurId` is the
  given id. It returns a fixed sentence when there is none, and otherwise a
  formatted description ending in a "million years ago" clause.
- `getDinosaursAliveMya` keeps the records alive at a query value, in input
  order. It then maps each survivor either to its `id` or, when a truthy key
  is given, to `record[key] || record.id`.

Files:

- `dinosaurs.dfy` (module `Dinosaurs`): the record type, the JavaScript
  values a property lookup can return, truthiness, and `record[key]`.
- `dinosaur_facts.dfy` (module `DinosaurFacts`): the three queries, their
  specifications and the lemmas about them.

`getLongestDinosaur` is a loop that updates an accumulator. It is modelled
as the method `GetLongestDinosaur`. Its loop is proved equal to the
function `Longest`, which is built on `Leader`, the index the running
maximum holds after `n` records. The lemmas characterise `Leader` as the
first record of greatest positive length. The other two queries are
expressions (`find`, `filter`, `map`, template strings) and are modelled
as functions.

Decisions that follow the code where other descriptions differ:

- The lookup compares `dinosaurId`, while the time filter projects `id`.
  The record carries both fields, and each query reads the one the code
  reads.
- The doc comment of `getDinosaursAliveMya` says a single estimate `[29]`
  matches the queries 29 and 28. The code tests `myaValue === mya - 1`,
  which matches 29 and 30. The model follows the code
  (`SingleEstimateWindow`, `SingleEstimateExample`).
- A `mya` with two or more values is tested by membership (`includes`), not
  as a numeric range. An empty `mya` matches nothing.
- In the description, any `mya` length other than one takes the range
  form. A missing element prints as `undefined`, as in a template literal.

## Model

| member | source | states |
|---|---|---|
| Dinosaurs.Get | src/01-dinosaur-facts.js:138 | `record[key]` is `undefined` for a property the record does not have, and the record's id for the key `"id"` |
| DinosaurFacts.Feet | src/01-dinosaur-facts.js:33 | the height in feet is positive exactly when the length is |
| DinosaurFacts.FeetOrder | src/01-dinosaur-facts.js:33-34 | comparing heights in feet is comparing lengths, since the factor 3.281 is positive |
| DinosaurFacts.Longest | src/01-dinosaur-facts.js:27-46 | the returned object has at most one entry, and its key is never the empty name |
| DinosaurFacts.Leader | src/01-dinosaur-facts.js:32-38 | the running maximum after `n` records points at one of those `n` records, or at none |
| DinosaurFacts.GetLongestDinosaur | src/01-dinosaur-facts.js:26-47 | the loop with its accumulator returns exactly the specification `Longest`: the leader's name mapped to its rounded height, or `{}` |
| DinosaurFacts.LeaderWithin | src/01-dinosaur-facts.js:27-38 | after `n` records the maximum is still empty iff none of them has positive length; otherwise it is the first of them with the greatest length |
| DinosaurFacts.FirstLongestUnique | src/01-dinosaur-facts.js:34 | at most one record is the first longest, so strict `>` determines the winner |
| DinosaurFacts.LeaderIsFirstLongest | src/01-dinosaur-facts.js:32-38 | the scan settles on record `k` if and only if `k` is the first record of greatest positive length |
| DinosaurFacts.LongestWithoutPositiveLength | src/01-dinosaur-facts.js:27-46 | with no record of positive length, including an empty input, the result is `{}` |
| DinosaurFacts.LongestNamesFirstLongest | src/01-dinosaur-facts.js:32-46 | the result is `{ name: round2(feet) }` of the first longest record, or `{}` when that record's name is empty |
| DinosaurFacts.LongestCases | src/01-dinosaur-facts.js:26-47 | every input either has no record of positive length or has a first longest record, so the two lemmas above cover all inputs |
| DinosaurFacts.LongestIsMaximal | src/01-dinosaur-facts.js:32-43 | a non-empty result comes from a record whose unrounded height in feet is at least every record's |
| DinosaurFacts.FindById | src/01-dinosaur-facts.js:72 | `find` gives nothing iff no record has that `dinosaurId`, and otherwise the first record that has it |
| DinosaurFacts.NotFoundMessage | src/01-dinosaur-facts.js:75-77 | the not-found sentence is the id plus 44 fixed characters, and the id can be read back at offset 26 |
| DinosaurFacts.MyaClause | src/01-dinosaur-facts.js:79-88 | one estimate renders as `v million years ago`; two or more as `v0-v1 million years ago`; none as `undefined-undefined million years ago` |
| DinosaurFacts.Describe | src/01-dinosaur-facts.js:91 | the description's first line is `name (pronunciation)`, and it ends with the "million years ago" clause and a full stop |
| DinosaurFacts.GetDinosaurDescription | src/01-dinosaur-facts.js:70-92 | an unknown id gives exactly the not-found sentence; otherwise the description of the first record with that `dinosaurId` |
| DinosaurFacts.AliveAt | src/01-dinosaur-facts.js:126-133 | a record matches only a listed value or, for a single estimate, that value plus one; any `mya` not of length one matches exactly its listed values; an empty one matches nothing |
| DinosaurFacts.FilterAlive | src/01-dinosaur-facts.js:124-134 | the survivors are input records alive at the query, every alive input record survives, and there are no more of them than inputs |
| DinosaurFacts.KeyGiven | src/01-dinosaur-facts.js:137 | `if (key)` holds exactly when a key is given and is truthy as a string |
| DinosaurFacts.KeyOrId | src/01-dinosaur-facts.js:138 | the fallback from `dinosaur[key]` to `dinosaur.id` gives the keyed value when that is truthy, and the id otherwise, in particular for a property the record lacks |
| DinosaurFacts.Project | src/01-dinosaur-facts.js:136-141 | one value per survivor, in order; under a truthy key it is the survivor's own value for that key when that value is truthy, and in every other case the survivor's id |
| DinosaurFacts.GetDinosaursAliveMya | src/01-dinosaur-facts.js:122-142 | exactly one value per surviving record, so no more than the input; each is the id or, under a truthy key, the truthy keyed value of a record alive at the query; the i-th value is the keyed value of the i-th survivor when the key is truthy and so is that value, and its id otherwise |
| DinosaurFacts.SingleEstimateWindow | src/01-dinosaur-facts.js:128-131 | a single estimate `[v]` matches query `q` iff `q == v` or `q == v + 1` |
| DinosaurFacts.SingleEstimateExample | src/01-dinosaur-facts.js:102-131 | `[29]` matches 29 and 30 but not 28 |
| DinosaurFacts.MembershipNotRange | src/01-dinosaur-facts.js:132-133 | `[70, 66]` does not match 68 but matches 66; an empty `mya` matches no query |
| DinosaurFacts.FilterAliveAppend | src/01-dinosaur-facts.js:124-134 | filtering distributes over concatenation, so input order is kept |
| DinosaurFacts.ProjectAppend | src/01-dinosaur-facts.js:136-141 | projecting a concatenation is the concatenation of the projections |
| DinosaurFacts.AliveMyaAppend | src/01-dinosaur-facts.js:122-142 | the whole query distributes over concatenation: one output per survivor, in input order |
| DinosaurFacts.AliveMyaSingle | src/01-dinosaur-facts.js:124-141 | for one record the output is empty when it is not alive, its truthy keyed value under a truthy key, and its id otherwise |
| DinosaurFacts.AliveMyaIds | src/01-dinosaur-facts.js:140-141 | without a key, or with the empty key, the output is the survivors' ids |
| DinosaurFacts.UnknownKeyFallsBackToId | src/01-dinosaur-facts.js:137-138 | a key that no record has as a property of its own gives the same output as no key |
| DinosaurFacts.TwoRecordLongest | src/01-dinosaur-facts.js:32-43 | of records of length 10 and 20 the second wins, at 65.62 feet before rounding |
| DinosaurFacts.TwoRecordAlive | src/01-dinosaur-facts.js:113-120 | queries 66 and 67 both keep only the `[66]` record; the key `"name"` gives its name, an unknown key its id |
| DinosaurFacts.TwoRecordNotFound | src/01-dinosaur-facts.js:74-77 | an id no record has gives the not-found sentence |

## Left out

- Loading the `data/dinosaurs` fixture and `module.exports`: module plumbing with no logic. The records are a parameter of every query.
- Floating point: lengths, heights and `mya` values are exact reals. `* 3.281` and the comparisons are exact, and NaN is not modelled.
- `toFixed(2)` followed by `parseFloat`: the rounding is the parameter `round2`, with no properties assumed of it.
- Number-to-string conversion inside template literals (`77.5`, `70`): the parameter `show`, with no properties assumed of it.
- JavaScript coercion: values that are not records of the modelled shape (a missing `lengthInMeters`, a non-array `mya`, a query given as a string) are not modelled. Truthiness is modelled for the value kinds in `Dinosaurs.Value`.
- Object keys: the `{ [name]: height }` object is a `map<string, real>`. Property order, prototype lookup and numeric-string keys are not modelled.
- `key` is an optional string. A non-string key is not modelled.
- Dinosaurs.Get: properties a JavaScript object inherits from its prototype (such as `toString`) read as absent, so such a key falls back to the id where JavaScript would return a truthy function.
- Records are assumed to carry an `id` string as well as a `dinosaurId`; a record without an `id` property, for which `dinosaur.id` would be `undefined`, is not modelled.
