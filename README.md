# ECS registry and name normaliser, modelled in Dafny

This project models two pieces of the `challenge-pgz` game repository.

- **`Ems` (ems.dfy)** models the entity-component-system registry `World` of `src/ems.py`.
  A world holds three things: the set of live entities, one table per component type mapping an entity to its instance of that type, and an ordered list of systems.
  `World` is a class whose fields are a `set`, a `map` of `map`s and a `seq`.
  Each operation is a method whose contract states the whole new state and what a caller observes through `GetComponent`.
  `destroy_entity` and `get_matching_entities` are loops in the source, and they are loops here, with invariants.
  The query's answer is tied to the set-intersection function `Query`, and lemmas relate `Query` to adding, removing and destroying.
  An entity is a natural number from a counter, which stands in for the source's random UUID: a created identity is above every identity issued before, so it was never handed out, and nothing is stored under it.
  Component types, component payloads and systems are type parameters.
- **`SnakeCase` (snake_case.dfy)** models `to_snake_case` of `devops/scripts/to_snake_case.py`.
  It is a chain of six rewrites.
  Each `re.sub` is a recursive function that performs the regex engine's left-to-right, non-overlapping scan.
  Each scan is proved equal to an independent reference definition, which says what happens at every position of the input.
  The lemmas prove the output invariants of the whole chain:
  - no uppercase letter;
  - no hyphen or whitespace;
  - no underscore at either end;
  - no two underscores in a row;
  - all other text kept, lowercased and in order;
  - idempotence, and that exactly the strings with these invariants are returned unchanged.

Two details of the code shape the contracts.
A query starts from the live set (src/ems.py:109), so an entity whose components outlive it is never returned.
`destroy_entity` sweeps the tables only when the entity is live (src/ems.py:74), so entries stored under a non-live entity stay; `DestroyEntity` states both cases.

## Model

| member | source | states |
|---|---|---|
| `Ems.World.constructor` | src/ems.py:59-64 | a new world has no entities, no component entries and no systems |
| `Ems.World.CreateEntity` | src/ems.py:66-70 | the returned entity was never issued before (it lies at or above every earlier identity), holds no component of any type, and is the only addition to the live set; tables and systems are unchanged |
| `Ems.World.DestroyEntity` | src/ems.py:72-78 | a live entity leaves the live set and every table, and afterwards `GetComponent` answers `None` for it for every type; every other entity's entries are unchanged; for a non-live entity nothing changes, stray entries included |
| `Ems.Swept` | src/ems.py:76-78 | after the sweep, each table is the old table without the destroyed entity, and the set of tables is the same |
| `Ems.World.AddComponent` | src/ems.py:80-83 | afterwards `GetComponent(e, type of c)` is `c`, replacing any earlier instance; every other (type, entity) entry, the live set and the systems are unchanged |
| `Ems.World.GetComponent` | src/ems.py:85-87 | the answer is present exactly when the entity has an entry in that type's table, and a present instance is of the requested type |
| `Ems.World.RemoveComponent` | src/ems.py:89-92 | afterwards the entry is absent; a missing entry is a no-op; all other entries, the live set and the systems are unchanged |
| `Ems.World.AddSystem` | src/ems.py:94-96 | the system is appended at the end of the run order |
| `Ems.FirstIndex` | src/ems.py:98-100 | the index is the first position holding the system, or the list length when it is absent |
| `Ems.World.RemoveSystem` | src/ems.py:98-100 | removal succeeds exactly when the system is listed; the first occurrence is deleted and the rest keep their order (one copy fewer in the multiset); otherwise the list is unchanged |
| `Ems.World.GetMatchingEntities` | src/ems.py:102-114 | the answer is exactly the live entities holding a component of every requested type; with no types it is every live entity; if any requested type's table is empty the answer is empty |
| `Ems.Query` | src/ems.py:109-113 | the answer lies within the live set and within the table of every requested type; with no types it is the whole live set |
| `Ems.QueryAfterDestroy` | src/ems.py:72-114 | destroying an entity removes exactly that entity from the answer to every query |
| `Ems.QueryAfterAdd` | src/ems.py:80-114 | adding a component changes only its own entity's membership in a query; the entity is in the answer exactly when it is live and holds every other requested type |
| `Ems.QueryAfterRemove` | src/ems.py:89-114 | removing a component of a requested type takes its entity out of the answer and changes no other entity's membership |
| `Ems.QueryNarrows` | src/ems.py:109-113 | asking for more component types never yields more entities |
| `Ems.World.Update` | src/ems.py:116-119 | every system's `update(dt)` is called exactly once, in list order, with the given `dt` |
| `Ems.World.Draw` | src/ems.py:121-124 | every system's `draw()` is called exactly once, in list order |
| `SnakeCase.IsSeparator` | devops/scripts/to_snake_case.py:8 | the class `[-\s]`: the hyphen and the ASCII characters Python's `\s` matches, namely space, tab, newline, carriage return, vertical tab, form feed and 0x1C-0x1F |
| `SnakeCase.ReplaceSeparators` | devops/scripts/to_snake_case.py:8 | the result contains no hyphen or whitespace; every character is an underscore or an input character |
| `SnakeCase.ReplaceSeparatorsMarksRunStarts` | devops/scripts/to_snake_case.py:8 | each maximal run of hyphens and whitespace becomes exactly one underscore, at the run's start; all other characters are kept |
| `SnakeCase.ReplaceSeparatorsKeepsText` | devops/scripts/to_snake_case.py:8 | apart from separators and underscores, the text is unchanged and in order |
| `SnakeCase.ReplaceSeparatorsFixes` | devops/scripts/to_snake_case.py:8 | a string without hyphens or whitespace is left unchanged |
| `SnakeCase.SplitCamel` | devops/scripts/to_snake_case.py:10 | every result character is an input character or an underscore |
| `SnakeCase.SplitCamelMarksEveryBoundary` | devops/scripts/to_snake_case.py:10 | the non-overlapping scan inserts an underscore between every lowercase letter or digit and a following uppercase letter, and nowhere else |
| `SnakeCase.SplitCamelSeparatesWords` | devops/scripts/to_snake_case.py:10 | afterwards no lowercase letter or digit is directly followed by an uppercase letter, and removing underscores gives back the input without underscores |
| `SnakeCase.SplitCamelOnlyAtBoundaries` | devops/scripts/to_snake_case.py:10 | a string without such a boundary is left unchanged |
| `SnakeCase.UpperRun` | devops/scripts/to_snake_case.py:11 | the length of the maximal leading run of uppercase letters |
| `SnakeCase.AcronymMatch` | devops/scripts/to_snake_case.py:11 | `([A-Z]+)([A-Z][a-z])` matches at the start exactly when the maximal run of capitals has length at least two and is followed by a lowercase letter |
| `SnakeCase.AcronymMatchIsRegexMatch` | devops/scripts/to_snake_case.py:11 | that condition holds exactly when the input starts with capitals up to some position of at least two that holds a lowercase letter, that is, when group 1 and group 2 can both be matched |
| `SnakeCase.SplitAcronym` | devops/scripts/to_snake_case.py:11 | every result character is an input character or an underscore |
| `SnakeCase.SplitAcronymMarksEveryEnd` | devops/scripts/to_snake_case.py:11 | the backtracking scan of `([A-Z]+)([A-Z][a-z])` inserts an underscore before the last capital of every uppercase run followed by an uppercase-lowercase pair, and nowhere else |
| `SnakeCase.SplitAcronymSeparatesWords` | devops/scripts/to_snake_case.py:11 | afterwards no two uppercase letters are directly followed by a lowercase one, and removing underscores gives back the input without underscores |
| `SnakeCase.SplitAcronymOnlyAtEnds` | devops/scripts/to_snake_case.py:11 | a string without such a triple is left unchanged |
| `SnakeCase.LowerChar` | devops/scripts/to_snake_case.py:13 | the result is never a capital; an ASCII capital becomes a lowercase letter; every other character is kept; separators and underscores stay what they are |
| `SnakeCase.Lower` | devops/scripts/to_snake_case.py:13 | lowercasing works character by character and keeps the length |
| `SnakeCase.LowerKeepsText` | devops/scripts/to_snake_case.py:13 | lowercasing commutes with deleting separators and underscores |
| `SnakeCase.LowerFixes` | devops/scripts/to_snake_case.py:13 | a string without uppercase letters is left unchanged |
| `SnakeCase.StripUnderscores` | devops/scripts/to_snake_case.py:15 | the result neither starts nor ends with an underscore |
| `SnakeCase.StripRemovesOnlyEdgeUnderscores` | devops/scripts/to_snake_case.py:15 | the input is the result with a run of underscores on each side |
| `SnakeCase.StripKeepsText` | devops/scripts/to_snake_case.py:15 | stripping removes underscores only |
| `SnakeCase.StripFixes` | devops/scripts/to_snake_case.py:15 | a string that neither starts nor ends with an underscore is left unchanged |
| `SnakeCase.CollapseUnderscores` | devops/scripts/to_snake_case.py:17 | the result has no two underscores in a row, keeps the first character, keeps a last character that is not an underscore, and uses only input characters |
| `SnakeCase.CollapseMarksRunStarts` | devops/scripts/to_snake_case.py:17 | each maximal run of underscores, including a single one, becomes exactly one underscore |
| `SnakeCase.CollapseKeepsText` | devops/scripts/to_snake_case.py:17 | collapsing removes underscores only |
| `SnakeCase.CollapseFixes` | devops/scripts/to_snake_case.py:17 | a string without a double underscore is left unchanged |
| `SnakeCase.ToSnakeCase` | devops/scripts/to_snake_case.py:6-18 | the six rewrites in order; the result has no underscore at either end and no two underscores in a row |
| `SnakeCase.ToSnakeCaseIsNormalized` | devops/scripts/to_snake_case.py:6-18 | every result has no uppercase letter, no hyphen or whitespace, no underscore at either end and no two underscores in a row |
| `SnakeCase.ToSnakeCaseKeepsText` | devops/scripts/to_snake_case.py:6-18 | apart from separators and underscores, the result is the input lowercased, in the same order |
| `SnakeCase.FixedPointsAreNormalized` | devops/scripts/to_snake_case.py:6-18 | a name is returned unchanged if and only if it already has the four output properties, so snake-case input is left alone |
| `SnakeCase.ToSnakeCaseIdempotent` | devops/scripts/to_snake_case.py:6-18 | normalising twice gives the same result as normalising once |

## Left out

- Entity identity: `uuid.uuid4()` and `Entity.__hash__`/`__eq__` (src/ems.py:8-18) are replaced by a counter of natural numbers. `add_component` on an identity the world has not seen advances the counter past it. So a created entity differs from every identity issued or stored before, as a random UUID does with overwhelming probability.
- Python's dynamic types: `add_component` files an instance under `type(component)`. Here a component carries its type as the `kind` field.
- The empty table that `defaultdict` creates when `get_component`, `remove_component` or the query reads a type with no table (src/ems.py:87, 91, 111). No caller can observe it; a missing type counts as an empty table.
- The order of the list returned by `get_matching_entities`. The source builds a `set` and converts it to a `list`, so the order is arbitrary; the model returns the set.
- The bodies of `System.update` and `System.draw` (src/ems.py:37-50) are empty hooks. `Update` and `Draw` return the sequence of hook calls they make. A system that changes the world or the system list while the loop runs is not modelled. `dt` is passed through as a `real` and never computed with.
- `Ems.World.RemoveSystem`: Python's `list.remove` raises `ValueError` when the system is absent; here the method returns `removed == false` and changes nothing.
- Component instances are values here. Python stores and returns the same mutable object (src/ems.py:83, 87), so an in-place edit of a component is seen by the world and by every holder of that object; in the model such an edit is an `AddComponent` that overwrites the entry, and sharing one instance between entities is not modelled.
- The per-frame game systems (motion, collision, combat, spawning, animation, cleanup) are not part of this model, and neither is the Pygame Zero window in src/main.py; only the registry they run on is.
- `process_dir`, `process_file` and `main` of devops/scripts/to_snake_case.py (lines 21-71) walk and rename files and read `sys.argv`; devops/scripts/print_image_size.py decodes and prints images. All of this is file-system I/O.
- Unicode: Python's `\s` also matches non-ASCII whitespace, and `str.lower()` also folds non-ASCII letters. Here only ASCII whitespace is a separator, and only `A`-`Z` are lowercased. Any other character passes through unchanged.
