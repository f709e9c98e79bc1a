# Prog2 exercises in Dafny

This project is a verified model of the exercises in the Prog2 course
repository (package `it.unimi.di.prog2`). They are small Java classes that
practise abstraction: representation invariants, abstraction functions,
mutability and iterators. The model covers:

- the e17 astronomical simulation: `SpacePoint`, `CelestialBody`, `Star`,
  `Planet` and `AstronomicalSystem`;
- the e12 classes `StringToIntMap`, `BoundedIntQueue` and `RationalNumber`;
- the h12 classes `CurrencyAmount` and `GuestList`;
- the two `DensePoly` versions, h10 and h11;
- the binary searches and array helpers of s05, s06, e06, e05 and h06;
- the integer sets `ArrayIntSet` (h08), `ListIntSet` (h17) and `MaxIntSet` (h15);
- the iterators of e14 and h13;
- the h14 classes `Watch` and `Book`, which have member classes;
- the sums and the flag-drawing helper of h03 and h04.

The Dafny form follows the Java form:

- **Immutable values become datatypes with pure functions.** This covers
  `SpacePoint`, `RationalNumber`, `CurrencyAmount`, `DensePoly` and
  `StringEndsWith`.
- **Objects whose fields change become classes.** Their methods carry
  `modifies` clauses. A Java `List` field becomes a `seq` field that the
  methods reassign, and a fixed array stays an `array`.
- **Every loop in the source becomes a method with a `while` or `for` loop.**
  It is proved against a specification function, for example
  `ArrayUtils.Search` for `binarySearch`, `AstronomicalSystems.Step` for
  `timeStep`, or `PolyCoefficients.ProductCoefficients` for `mul`.

Exceptions become results:

- A method that throws returns a `Result`, or an `Outcome` when it returns
  nothing.
- The error carries the kind of exception: `IllegalArgument`,
  `IllegalState`, `NoSuchElement` or `UnsupportedOperation`.
- Only the callers' own obligations stay as `requires` clauses, for example
  a non-null argument or a private constructor's argument that the factory
  methods check.

Shared pieces:

- `JavaInt` models Java's truncating `/` and `%`, `Math.abs`,
  `Integer.signum` and the `int` range.
- `JavaString` models `String.compareTo`, `String.length`,
  `String.valueOf(int)`, `Integer.parseInt`, `String.split` on a literal
  character and `endsWith`. A string is a sequence of Unicode characters;
  `length` and `compareTo` are taken on its UTF-16 encoding, as Java
  defines them.
- `PolyCoefficients` holds the polynomial specification and the array loops
  that both `DensePoly` versions share.
- `IntSetElements` holds the element lists that the integer sets share.
- `StringSources` models the `Iterator<String>` that the e14 and h13
  iterators wrap.

Where the documentation and the code disagree, the model follows the code.
The cases are:

- **`CurrencyAmount.sottrai`.** Its documentation promises an
  IllegalArgumentException when `other` is greater than this amount. The
  code never throws and gives a negative amount
  (`CurrencyAmounts.SottraiGoesNegative`).
- **`IntRange.setStep`.** Its documentation says it throws when the step is
  "!= 0". The code throws when the step is 0, and the model does the same
  (`IntRanges.IntRange.SetStep`).
- **`binarySearch` in s05.** The documentation promises the first
  occurrence. The code returns some occurrence: the first when the array has
  no duplicates (`ArrayUtils.FirstOccurrenceWhenStrict`), but not in
  general (`ArrayUtils.NotFirstWithDuplicates`).
- **`Watch.tick`.** It ticks a gear that occurs twice in the list twice
  (`Watches.Watch.Tick`, `Watches.GearListedTwice`). A gear shared by two
  watches turns once for each watch that ticks (`Watches.SharedGear`).

## Model

All source paths are relative to the repository root.

| member | source | states |
|---|---|---|
| SpacePoints.SpacePoint.Norm | src/main/java/it/unimi/di/prog2/e17/SpacePoint.java:46-48 | the Manhattan norm is 0 exactly at the origin and bounds the absolute value of every coordinate |
| SpacePoints.AddSubInverse | src/main/java/it/unimi/di/prog2/e17/SpacePoint.java:79-90 | sub undoes add, add undoes sub, and p.sub(p) is the origin |
| SpacePoints.OriginNeutral | src/main/java/it/unimi/di/prog2/e17/SpacePoint.java:21-25 | the origin is the only point of norm 0 and is the identity of add on both sides |
| SpacePoints.AddCommutes | src/main/java/it/unimi/di/prog2/e17/SpacePoint.java:79-81 | add is commutative |
| SpacePoints.NormTriangle | src/main/java/it/unimi/di/prog2/e17/SpacePoint.java:46-48 | the norm of a sum is at most the sum of the norms |
| SpacePoints.ToStringExample | src/main/java/it/unimi/di/prog2/e17/SpacePoint.java:93-99 | toString joins the three coordinates with ", " between parentheses: (3, -1, 0) |
| CelestialBodies.AttractionIsUnit | src/main/java/it/unimi/di/prog2/e17/Planet.java:53-58 | the pull towards another body is, on each axis, the signum of the difference: -1, 0 or 1, positive exactly when the other body lies further along; it vanishes exactly when the positions coincide |
| CelestialBodies.PlanetEnergy | src/main/java/it/unimi/di/prog2/e17/Planet.java:41-43 | kinetic times potential energy is 0 exactly when the planet is at rest or at the origin, and otherwise at least each factor |
| CelestialBodies.Star.constructor | src/main/java/it/unimi/di/prog2/e17/Star.java:14-16 | a star holds the given name and position |
| CelestialBodies.Planet.constructor | src/main/java/it/unimi/di/prog2/e17/Planet.java:19-22 | a new planet holds the given name and position and has velocity (0, 0, 0) |
| CelestialBodies.Planet.KineticEnergy | src/main/java/it/unimi/di/prog2/e17/Planet.java:36-38 | the kinetic energy is 0 exactly when the velocity is the origin |
| CelestialBodies.Planet.SetPosition | src/main/java/it/unimi/di/prog2/e17/CelestialBody.java:51-53 | the position becomes the given point and nothing else changes |
| CelestialBodies.Planet.GravitateTowards | src/main/java/it/unimi/di/prog2/e17/Planet.java:50-59 | the velocity gains the unit pull towards the other body's position; the position is unchanged |
| CelestialBodies.Planet.ApplyVelocity | src/main/java/it/unimi/di/prog2/e17/Planet.java:64-66 | the position moves by the velocity; the velocity is unchanged |
| CelestialBodies.Body.PotentialEnergy | src/main/java/it/unimi/di/prog2/e17/CelestialBody.java:44-46 | the potential energy is 0 exactly when the body is at the origin |
| CelestialBodies.Body.State | src/main/java/it/unimi/di/prog2/e17/CelestialBody.java:8-9 | the snapshot of a body keeps its name, its position and whether it is a planet |
| CelestialBodies.Body.Energy | src/main/java/it/unimi/di/prog2/e17/CelestialBody.java:58 | the abstract energy dispatches to Star (0) and Planet (kinetic times potential) |
| CelestialBodies.Body.CompareTo | src/main/java/it/unimi/di/prog2/e17/CelestialBody.java:61-63 | compareTo is 0 exactly for equal names, and its sign follows the lexicographic order of the names' UTF-16 units |
| JavaString.CompareZeroIff | src/main/java/it/unimi/di/prog2/e17/CelestialBody.java:61-63 | String.compareTo is 0 exactly for equal strings |
| JavaString.CompareAntisymmetric | src/main/java/it/unimi/di/prog2/e17/CelestialBody.java:61-63 | swapping the arguments of String.compareTo flips the sign of the result |
| JavaString.LessTransitive | src/main/java/it/unimi/di/prog2/e17/CelestialBody.java:61-63 | the order String.compareTo defines is transitive |
| JavaString.SurrogatesSortLow | src/main/java/it/unimi/di/prog2/e17/CelestialBody.java:61-63 | compareTo orders by UTF-16 units: a character outside the Basic Multilingual Plane sorts before U+FFFF and counts as two in length() |
| CelestialBodies.NewPlanetHasNoEnergy | src/main/java/it/unimi/di/prog2/e17/Planet.java:19-22 | a planet that has just been built has energy 0 |
| CelestialBodies.StarToStringExample | src/main/java/it/unimi/di/prog2/e17/Star.java:24-26 | a star at the origin prints as "Star, name: Sun, pos: (0, 0, 0)" |
| AstronomicalSystems.AstronomicalSystem.constructor | src/main/java/it/unimi/di/prog2/e17/AstronomicalSystem.java:12-14 | a new system is empty and sorted |
| AstronomicalSystems.AstronomicalSystem.DistinctObjects | src/main/java/it/unimi/di/prog2/e17/AstronomicalSystem.java:58 | in a system sorted by name, two positions never hold the same object, so `body1 != body2` skips exactly the planet itself |
| AstronomicalSystems.AstronomicalSystem.BinarySearch | src/main/java/it/unimi/di/prog2/e17/AstronomicalSystem.java:16-29 | a non-negative result indexes a body with the same name; a negative one is -(insertion point)-1 among the sorted names |
| AstronomicalSystems.AstronomicalSystem.AddBody | src/main/java/it/unimi/di/prog2/e17/AstronomicalSystem.java:36-47 | IllegalArgumentException exactly when the name is taken, with no change; otherwise the body is inserted once, the rest keep their order, and the list stays sorted by name |
| AstronomicalSystems.AstronomicalSystem.TimeStep | src/main/java/it/unimi/di/prog2/e17/AstronomicalSystem.java:53-71 | the new state of all bodies is Step of the old one: every velocity is updated from the positions before the step, and only then does each planet move |
| AstronomicalSystems.AstronomicalSystem.UpdateVelocities | src/main/java/it/unimi/di/prog2/e17/AstronomicalSystem.java:55-63 | after the first loop, every planet has gravitated towards every other body as they stood at the start |
| AstronomicalSystems.AstronomicalSystem.GravitateTowardsOthers | src/main/java/it/unimi/di/prog2/e17/AstronomicalSystem.java:57-61 | the inner loop adds the pulls of all bodies other than the planet itself |
| AstronomicalSystems.AstronomicalSystem.ApplyVelocities | src/main/java/it/unimi/di/prog2/e17/AstronomicalSystem.java:66-70 | the second loop moves every planet by its velocity and leaves stars alone |
| AstronomicalSystems.AstronomicalSystem.TotalEnergy | src/main/java/it/unimi/di/prog2/e17/AstronomicalSystem.java:76-82 | the loop returns the sum of the bodies' energies |
| AstronomicalSystems.AstronomicalSystem.ToString | src/main/java/it/unimi/di/prog2/e17/AstronomicalSystem.java:85-92 | one line per body in list order, then "Total Energy: " and the total |
| AstronomicalSystems.AstronomicalSystem.BodyLines | src/main/java/it/unimi/di/prog2/e17/AstronomicalSystem.java:87-89 | the loop appends each body's description and a newline |
| AstronomicalSystems.StepKeepsBodies | src/main/java/it/unimi/di/prog2/e17/AstronomicalSystem.java:53-71 | a step keeps the number of bodies, their names and kinds, and leaves every star exactly as it was |
| AstronomicalSystems.StarsNeverMove | src/main/java/it/unimi/di/prog2/e17/AstronomicalSystem.java:56-68 | after any number of steps a star is unchanged |
| AstronomicalSystems.PullBounded | src/main/java/it/unimi/di/prog2/e17/AstronomicalSystem.java:57-61 | over n bodies the total pull changes each velocity coordinate by at most n |
| AstronomicalSystems.PullAtSamePosition | src/main/java/it/unimi/di/prog2/e17/AstronomicalSystem.java:57-61 | bodies at the planet's own position exert no pull |
| AstronomicalSystems.EnergySumAppend | src/main/java/it/unimi/di/prog2/e17/AstronomicalSystem.java:76-82 | the total energy of two groups of bodies is the sum of their totals |
| AstronomicalSystems.EnergySumZero | src/main/java/it/unimi/di/prog2/e17/AstronomicalSystem.java:76-82 | the total energy is 0 exactly when every body's energy is 0 |
| AstronomicalSystems.OnlyStarsNoEnergy | src/main/java/it/unimi/di/prog2/e17/Star.java:19-21 | a system of stars alone has total energy 0 |
| AstronomicalSystems.EnergySumPermutation | src/main/java/it/unimi/di/prog2/e17/AstronomicalSystem.java:76-82 | the total energy does not depend on the order of the bodies |
| AstronomicalScenarios.PlanetAndStarStep | src/main/java/it/unimi/di/prog2/e17/AstronomicalSystem.java:53-71 | one step of a planet and a star: the planet gains the pull towards the star and moves by its new velocity; the star stays |
| AstronomicalScenarios.PlanetPairStep | src/main/java/it/unimi/di/prog2/e17/AstronomicalSystem.java:53-71 | one step of two planets: each is pulled towards the other's old position, then both move |
| AstronomicalScenarios.SunAndPlanetScenario | src/main/java/it/unimi/di/prog2/e17/AstronomicalSystem.java:53-82 | a planet at rest 3 units from a star reaches velocity (-1,0,0) and then (-2,0,0) and lands on the star after two steps, with total energy twice the norm of the star's position |
| AstronomicalScenarios.InterleavedPlanetPair | src/main/java/it/unimi/di/prog2/e17/AstronomicalSystem.java:53-71 | the alternative that moves each planet at once would pull the second planet towards the first one's new position |
| AstronomicalScenarios.PhaseOrderMatters | src/main/java/it/unimi/di/prog2/e17/AstronomicalSystem.java:53-71 | two planets at rest one unit apart swap places under the two-phase step, and the interleaved alternative gives a different result |
| AstronomicalScenarios.InterleavedFirstAgrees | src/main/java/it/unimi/di/prog2/e17/AstronomicalSystem.java:53-71 | moving each body at once and the two-phase step agree on the first body |
| StringToIntMaps.AsMapDomain | src/main/java/it/unimi/di/prog2/e12/StringToIntMap.java:113-115 | the keys of the map are exactly the keys of the entries |
| StringToIntMaps.AsMapValue | src/main/java/it/unimi/di/prog2/e12/StringToIntMap.java:140-147 | with sorted unique keys, each entry's key maps to its value |
| StringToIntMaps.AsMapSize | src/main/java/it/unimi/di/prog2/e12/StringToIntMap.java:94-96 | with sorted unique keys, the map has as many keys as there are entries |
| StringToIntMaps.AsMapDetermines | src/main/java/it/unimi/di/prog2/e12/StringToIntMap.java:227-234 | two sorted entry lists denote the same map exactly when they are equal, so comparing the lists is comparing the maps |
| StringToIntMaps.AsMapInsert | src/main/java/it/unimi/di/prog2/e12/StringToIntMap.java:157-165 | inserting a new entry at its insertion point adds exactly that key and value |
| StringToIntMaps.InsertKeepsSorted | src/main/java/it/unimi/di/prog2/e12/StringToIntMap.java:157-165 | inserting at the insertion point keeps the keys strictly sorted |
| StringToIntMaps.AsMapRemove | src/main/java/it/unimi/di/prog2/e12/StringToIntMap.java:174-182 | removing an entry removes exactly its key from the map |
| StringToIntMaps.RemoveKeepsSorted | src/main/java/it/unimi/di/prog2/e12/StringToIntMap.java:174-182 | removing an entry keeps the keys strictly sorted |
| StringToIntMaps.StringToIntMap.constructor | src/main/java/it/unimi/di/prog2/e12/StringToIntMap.java:85-87 | a new map is empty |
| StringToIntMaps.StringToIntMap.Size | src/main/java/it/unimi/di/prog2/e12/StringToIntMap.java:94-96 | size is the number of keys |
| StringToIntMaps.StringToIntMap.IsEmpty | src/main/java/it/unimi/di/prog2/e12/StringToIntMap.java:103-105 | isEmpty holds exactly for the empty map |
| StringToIntMaps.StringToIntMap.FindKeyIndex | src/main/java/it/unimi/di/prog2/e12/StringToIntMap.java:196-209 | a non-negative result indexes the entry with the key; a negative one is -(insertion point)-1 among the sorted keys |
| StringToIntMaps.StringToIntMap.ContainsKey | src/main/java/it/unimi/di/prog2/e12/StringToIntMap.java:113-115 | true exactly when the key is mapped |
| StringToIntMaps.StringToIntMap.ContainsValue | src/main/java/it/unimi/di/prog2/e12/StringToIntMap.java:123-130 | true exactly when some key maps to the value |
| StringToIntMaps.StringToIntMap.Get | src/main/java/it/unimi/di/prog2/e12/StringToIntMap.java:140-147 | the value of a mapped key; NoSuchElementException exactly when the key is absent |
| StringToIntMaps.StringToIntMap.Put | src/main/java/it/unimi/di/prog2/e12/StringToIntMap.java:157-165 | IllegalArgumentException exactly when the key is already mapped, with no change; otherwise the map gains exactly that key and value, and the keys stay sorted |
| StringToIntMaps.StringToIntMap.Remove | src/main/java/it/unimi/di/prog2/e12/StringToIntMap.java:174-182 | true exactly when the key was mapped; afterwards the map is the old one without that key |
| StringToIntMaps.StringToIntMap.Clear | src/main/java/it/unimi/di/prog2/e12/StringToIntMap.java:185-187 | the map becomes empty |
| StringToIntMaps.StringToIntMap.Equals | src/main/java/it/unimi/di/prog2/e12/StringToIntMap.java:227-234 | equals holds exactly for maps with the same keys and values |
| BoundedIntQueues.Slot | src/main/java/it/unimi/di/prog2/e12/BoundedIntQueue.java:80-87 | (head + i) % capacity stays inside the buffer and wraps around its end |
| BoundedIntQueues.ContentsAppend | src/main/java/it/unimi/di/prog2/e12/BoundedIntQueue.java:80-87 | writing into the slot just past the last element appends to the queue's contents |
| BoundedIntQueues.ContentsDropFirst | src/main/java/it/unimi/di/prog2/e12/BoundedIntQueue.java:95-103 | moving head one slot on drops the first element, which is the one at head |
| BoundedIntQueues.BoundedIntQueue.constructor | src/main/java/it/unimi/di/prog2/e12/BoundedIntQueue.java:67-72 | a new queue is empty and has the given capacity |
| BoundedIntQueues.Create | src/main/java/it/unimi/di/prog2/e12/BoundedIntQueue.java:67-72 | IllegalArgumentException exactly for a negative capacity; otherwise an empty queue of that capacity |
| BoundedIntQueues.BoundedIntQueue.Enqueue | src/main/java/it/unimi/di/prog2/e12/BoundedIntQueue.java:80-87 | IllegalStateException exactly when full, with no change; otherwise x is appended at the back |
| BoundedIntQueues.BoundedIntQueue.Dequeue | src/main/java/it/unimi/di/prog2/e12/BoundedIntQueue.java:95-103 | IllegalStateException exactly when empty; otherwise returns the front element and removes it |
| BoundedIntQueues.BoundedIntQueue.Equals | src/main/java/it/unimi/di/prog2/e12/BoundedIntQueue.java:119-132 | equal exactly when the queued elements are equal in order, whatever the capacities and head offsets |
| BoundedIntQueues.BoundedIntQueue.HashCode | src/main/java/it/unimi/di/prog2/e12/BoundedIntQueue.java:135-141 | Objects.hash(size), which is 31 + size, plus every queued element |
| BoundedIntQueues.HashOfEnqueue | src/main/java/it/unimi/di/prog2/e12/BoundedIntQueue.java:135-141 | enqueueing x adds 1 + x to the hash |
| RationalNumbers.GcdZero | src/main/java/it/unimi/di/prog2/e12/RationalNumber.java:71-73 | gcd(a, b) is 0 only for a = b = 0 |
| RationalNumbers.GcdDivides | src/main/java/it/unimi/di/prog2/e12/RationalNumber.java:71-73 | gcd(a, b) divides both a and b |
| RationalNumbers.GcdGreatest | src/main/java/it/unimi/di/prog2/e12/RationalNumber.java:71-73 | every common divisor divides gcd(a, b) |
| RationalNumbers.GcdBezout | src/main/java/it/unimi/di/prog2/e12/RationalNumber.java:71-73 | gcd(a, b) is an integer combination of a and b |
| RationalNumbers.Reduced | src/main/java/it/unimi/di/prog2/e12/RationalNumber.java:52-62 | dividing both parts by their gcd gives a fraction in lowest terms with the same value |
| RationalNumbers.Make | src/main/java/it/unimi/di/prog2/e12/RationalNumber.java:52-62 | IllegalArgumentException exactly for a zero denominator; otherwise a fraction in lowest terms equal to n/d whose denominator keeps the sign of d |
| RationalNumbers.ZeroNumerator | src/main/java/it/unimi/di/prog2/e12/RationalNumber.java:52-62 | 0/d is stored as 0/signum(d) |
| RationalNumbers.Add | src/main/java/it/unimi/di/prog2/e12/RationalNumber.java:82-87 | the sum is in lowest terms and equals (n1·d2 + n2·d1)/(d1·d2) |
| RationalNumbers.Mul | src/main/java/it/unimi/di/prog2/e12/RationalNumber.java:96-101 | the product is in lowest terms and equals (n1·n2)/(d1·d2) |
| RationalNumbers.SignNotNormalised | src/main/java/it/unimi/di/prog2/e12/RationalNumber.java:52-62 | 1/-2 and -1/2 are stored as they are, have the same value, and are not equal |
| RationalNumbers.MakeCanonical | src/main/java/it/unimi/di/prog2/e12/RationalNumber.java:52-62 | the constructor with the sign moved into the numerator: lowest terms, a positive denominator, the same value |
| RationalNumbers.LowestTermsUnique | src/main/java/it/unimi/di/prog2/e12/RationalNumber.java:109-114 | two fractions in lowest terms with positive denominators and the same value have the same fields |
| RationalNumbers.CanonicalEqualsIffSameValue | src/main/java/it/unimi/di/prog2/e12/RationalNumber.java:109-114 | with the sign normalised, equals holds exactly for fractions of the same value |
| CurrencyAmounts.CurrencyAmount.Sign | src/main/java/it/unimi/di/prog2/h12/CurrencyAmount.java:132-136 | 1, 0 or -1, as the amount is positive, zero or negative |
| CurrencyAmounts.UnitsAndCents | src/main/java/it/unimi/di/prog2/h12/CurrencyAmount.java:143-154 | units·100 + cents is the absolute amount, the cents are below 100, and the sign times that gives the amount back |
| CurrencyAmounts.Positive | src/main/java/it/unimi/di/prog2/h12/CurrencyAmount.java:65-70 | IllegalArgumentException exactly for negative units or cents outside 0..99; otherwise an amount whose units and cents are the arguments and whose sign is 1, or 0 for 0.00 |
| CurrencyAmounts.Negative | src/main/java/it/unimi/di/prog2/h12/CurrencyAmount.java:81-86 | the same checks; the amount has those units and cents and sign -1, or 0 for 0.00 |
| CurrencyAmounts.SplitCents | src/main/java/it/unimi/di/prog2/h12/CurrencyAmount.java:143-154 | Java's / and % by 100 give the units and cents back, for both signs |
| CurrencyAmounts.Parse | src/main/java/it/unimi/di/prog2/h12/CurrencyAmount.java:100-125 | parseCurrencyAmount as written: every failure is IllegalArgumentException |
| CurrencyAmounts.ParseRejectsNoDot | src/main/java/it/unimi/di/prog2/h12/CurrencyAmount.java:100-125 | an empty string or one without a dot is rejected |
| JavaString.ParseIntLength | src/main/java/it/unimi/di/prog2/h12/CurrencyAmount.java:108-120 | a string parseInt accepts has as many UTF-16 units as characters, so the two-digit check counts the digits |
| CurrencyAmounts.ParseToString | src/main/java/it/unimi/di/prog2/h12/CurrencyAmount.java:182-185 | parsing the toString of any int amount gives back an equal amount |
| CurrencyAmounts.SommaSottrai | src/main/java/it/unimi/di/prog2/h12/CurrencyAmount.java:163-179 | somma is commutative with ZERO as its identity, and sottrai undoes somma |
| CurrencyAmounts.SottraiGoesNegative | src/main/java/it/unimi/di/prog2/h12/CurrencyAmount.java:176-179 | 1.00 minus 2.00 is -1.00, with no exception |
| CurrencyAmounts.ParseAcceptsTrailingDot | src/main/java/it/unimi/di/prog2/h12/CurrencyAmount.java:100-125 | "1.00." parses as 1.00 although it is not in the documented format |
| CurrencyAmounts.ParseAcceptsSignedCents | src/main/java/it/unimi/di/prog2/h12/CurrencyAmount.java:100-125 | "1.+5" parses as 1.05 although it is not in the documented format |
| CurrencyAmounts.ParseStrict | src/main/java/it/unimi/di/prog2/h12/CurrencyAmount.java:100-125 | the parser with the documented format checked first; every failure is IllegalArgumentException |
| CurrencyAmounts.ParseStrictMeaning | src/main/java/it/unimi/di/prog2/h12/CurrencyAmount.java:100-125 | the strict parser succeeds exactly on an optional '-', digits, a dot and two digits, with units that fit an int, and reads their decimal value |
| CurrencyAmounts.ParseStrictToString | src/main/java/it/unimi/di/prog2/h12/CurrencyAmount.java:182-185 | the strict parser still reads back every toString |
| GuestLists.GuestList.Init | src/main/java/it/unimi/di/prog2/h12/GuestList.java:78-87 | with the checks passed, the list holds the given guests and capacity and satisfies the invariant |
| GuestLists.NewEmpty | src/main/java/it/unimi/di/prog2/h12/GuestList.java:63-67 | IllegalArgumentException exactly for a capacity that is not positive; otherwise an empty list |
| GuestLists.CheckGuests | src/main/java/it/unimi/di/prog2/h12/GuestList.java:78-87 | the checks pass exactly when the capacity is positive, the guests fit, and no guest is the empty string |
| GuestLists.NewWithGuests | src/main/java/it/unimi/di/prog2/h12/GuestList.java:78-87 | IllegalArgumentException exactly when those checks fail; otherwise a list of those guests |
| GuestLists.GuestList.Invite | src/main/java/it/unimi/di/prog2/h12/GuestList.java:109-114 | IllegalStateException when full, which is checked first, then IllegalArgumentException for "", with no change; otherwise the guest is appended |
| PolyCoefficients.TrimmedCoefficients | src/main/java/it/unimi/di/prog2/h10/DensePoly.java:80-89 | dropping trailing zeros keeps every coefficient and leaves no trailing zero |
| PolyCoefficients.CoefficientsDetermine | src/main/java/it/unimi/di/prog2/h10/DensePoly.java:111-114 | two arrays without trailing zeros that give the same coefficient everywhere are equal |
| PolyCoefficients.SumCoefficientsAt | src/main/java/it/unimi/di/prog2/h10/DensePoly.java:134-152 | addition is coefficientwise and keeps the invariant |
| PolyCoefficients.NegCoefficientsAt | src/main/java/it/unimi/di/prog2/h10/DensePoly.java:196-201 | negation is coefficientwise and keeps the invariant |
| PolyCoefficients.SumCommutes | src/main/java/it/unimi/di/prog2/h10/DensePoly.java:134-152 | p + q = q + p |
| PolyCoefficients.SumAssociates | src/main/java/it/unimi/di/prog2/h10/DensePoly.java:134-152 | (p + q) + r = p + (q + r) |
| PolyCoefficients.SumZero | src/main/java/it/unimi/di/prog2/h10/DensePoly.java:134-152 | the zero polynomial is the identity of addition |
| PolyCoefficients.SumNeg | src/main/java/it/unimi/di/prog2/h10/DensePoly.java:182-201 | p - p is zero and minus is an involution |
| PolyCoefficients.ProductCoefficientsAt | src/main/java/it/unimi/di/prog2/h10/DensePoly.java:163-171 | the product's coefficients are the convolution, zero absorbs, and for non-zero factors the degrees add up |
| PolyCoefficients.TrimCopy | src/main/java/it/unimi/di/prog2/h10/DensePoly.java:80-89 | the trimming loop copies the array without its trailing zeros |
| PolyCoefficients.AddInto | src/main/java/it/unimi/di/prog2/h10/DensePoly.java:134-152 | the two loops of add fill a fresh array with the coefficientwise sum |
| PolyCoefficients.MulInto | src/main/java/it/unimi/di/prog2/h10/DensePoly.java:163-171 | the nested loops of mul fill a fresh array with the convolution |
| PolyCoefficients.NegateInto | src/main/java/it/unimi/di/prog2/h10/DensePoly.java:196-201 | the loop of minus negates every coefficient into a fresh array |
| DensePolys.DensePoly.Degree | src/main/java/it/unimi/di/prog2/h10/DensePoly.java:99-103 | IllegalStateException exactly for the zero polynomial; otherwise the largest exponent with a non-zero coefficient |
| DensePolys.Zero | src/main/java/it/unimi/di/prog2/h10/DensePoly.java:51-53 | the zero polynomial has every coefficient 0 |
| DensePolys.Monomial | src/main/java/it/unimi/di/prog2/h10/DensePoly.java:62-70 | IllegalArgumentException exactly for n < 0; otherwise c·x^n, which is zero exactly when c = 0 |
| DensePolys.FromArray | src/main/java/it/unimi/di/prog2/h10/DensePoly.java:80-89 | a valid polynomial with the array's coefficients |
| DensePolys.Add | src/main/java/it/unimi/di/prog2/h10/DensePoly.java:134-152 | valid, coefficientwise p + q, and p or q itself when the other is zero |
| DensePolys.Mul | src/main/java/it/unimi/di/prog2/h10/DensePoly.java:163-171 | valid, the convolution, zero exactly when a factor is zero, and otherwise of degree deg p + deg q |
| DensePolys.Minus | src/main/java/it/unimi/di/prog2/h10/DensePoly.java:196-201 | valid and coefficientwise -p |
| DensePolys.Sub | src/main/java/it/unimi/di/prog2/h10/DensePoly.java:182-187 | valid and coefficientwise p - q |
| DensePolys.SameCoefficients | src/main/java/it/unimi/di/prog2/h10/DensePoly.java:111-114 | two valid polynomials with the same coefficients are the same value |
| DensePolysWithZero.DensePoly.Degree | src/main/java/it/unimi/di/prog2/h11/DensePoly.java:135-139 | IllegalStateException exactly for an empty coefficient array; otherwise the largest exponent with a non-zero coefficient |
| DensePolysWithZero.Copy | src/main/java/it/unimi/di/prog2/h11/DensePoly.java:76-79 | the copy constructor: a new object, never ZERO itself, with the same coefficients |
| DensePolysWithZero.CopyOfZero | src/main/java/it/unimi/di/prog2/h11/DensePoly.java:76-79 | a copy of ZERO equals ZERO, yet isZero is false for it and degree throws |
| DensePolysWithZero.CopyKeepingZero | src/main/java/it/unimi/di/prog2/h11/DensePoly.java:76-79 | a copy that returns ZERO for ZERO: equal to the original, zero exactly when it is, canonical when it is |
| DensePolysWithZero.OfCoefficients | src/main/java/it/unimi/di/prog2/h11/DensePoly.java:90-95 | ZERO exactly when every coefficient is 0; otherwise a canonical polynomial with the array's coefficients |
| DensePolysWithZero.OfCoefficientDegree | src/main/java/it/unimi/di/prog2/h11/DensePoly.java:105-114 | IllegalArgumentException exactly for n < 0; otherwise c·x^n, which is ZERO exactly when c = 0 |
| DensePolysWithZero.Add | src/main/java/it/unimi/di/prog2/h11/DensePoly.java:161-179 | the other operand when one is ZERO; otherwise IllegalStateException exactly when an operand is a copy of ZERO, which has no degree, and else the coefficientwise sum; canonical operands never fail and give a canonical sum |
| DensePolysWithZero.Mul | src/main/java/it/unimi/di/prog2/h11/DensePoly.java:190-198 | ZERO when a factor is ZERO; otherwise IllegalStateException exactly when a factor is a copy of ZERO, and else the convolution, canonical, with degrees adding up |
| DensePolysWithZero.Minus | src/main/java/it/unimi/di/prog2/h11/DensePoly.java:223-228 | ZERO for ZERO; IllegalStateException exactly for a copy of ZERO; otherwise coefficientwise -p, canonical for a canonical p, and ZERO exactly when p is ZERO |
| DensePolysWithZero.Sub | src/main/java/it/unimi/di/prog2/h11/DensePoly.java:209-214 | coefficientwise p - q; it fails exactly when q is a copy of ZERO, or p is a copy of ZERO and q is not ZERO, so never for canonical operands |
| DensePolysWithZero.EqualsCanonical | src/main/java/it/unimi/di/prog2/h11/DensePoly.java:258-267 | for canonical polynomials equals is value equality, and equal polynomials have equal hash codes |
| DensePolysWithZero.ToString | src/main/java/it/unimi/di/prog2/h11/DensePoly.java:233-255 | IllegalStateException exactly for an empty coefficient array; a constant prints as "DensePoly: c"; otherwise the terms from the highest degree down |
| DensePolysWithZero.RenderingExample | src/main/java/it/unimi/di/prog2/h11/DensePoly.java:233-255 | x² - 1 prints as "DensePoly: x^2 - 1" |
| ArrayUtils.HalfIsDivision | src/main/java/it/unimi/di/prog2/s06/ArrayUtils.java:49 | the halving used for the midpoint is integer division by two |
| ArrayUtils.Search | src/main/java/it/unimi/di/prog2/s06/ArrayUtils.java:45-55 | the search on a window returns an index holding the needle, or -lo-1 with lo inside the window |
| ArrayUtils.SearchMisses | src/main/java/it/unimi/di/prog2/s06/ArrayUtils.java:45-55 | on a sorted array a miss encodes the insertion point |
| ArrayUtils.BinarySearch | src/main/java/it/unimi/di/prog2/s06/ArrayUtils.java:45-55 | the loop computes Search over the whole array; a non-negative result indexes the needle |
| ArrayUtils.SearchFacts | src/main/java/it/unimi/di/prog2/s05/ArrayUtils.java:44-54 | on a sorted array the result is non-negative exactly when the needle occurs, and a miss is -(insertion point)-1 |
| ArrayUtils.FirstOccurrenceWhenStrict | src/main/java/it/unimi/di/prog2/s05/ArrayUtils.java:44-54 | without duplicates the index found is the first occurrence |
| ArrayUtils.NotFirstWithDuplicates | src/main/java/it/unimi/di/prog2/s05/ArrayUtils.java:44-54 | in [1, 1, 1] the search for 1 returns index 1, not the first occurrence |
| ArrayUtils.InsertAt | src/main/java/it/unimi/di/prog2/s06/ArrayUtils.java:66-69 | the elements from the insertion point shift one place right, the last one drops off, and the value lands at the insertion point |
| ArrayUtils.InsertKeepsSorted | src/main/java/it/unimi/di/prog2/s06/ArrayUtils.java:66-69 | inserting an absent value at its insertion point keeps a sorted array sorted |
| ArrayUtils.Fill | src/main/java/it/unimi/di/prog2/s06/ArrayUtils.java:77-79 | every element becomes the value |
| ArrayUtilsStubs.InsertAt | src/main/java/it/unimi/di/prog2/e06/ArrayUtils.java:65 | the empty stub leaves the array unchanged |
| ArrayUtilsStubs.Fill | src/main/java/it/unimi/di/prog2/e06/ArrayUtils.java:68 | the empty stub leaves the array unchanged |
| ArrayUtilsMinusOne.BinarySearch | src/main/java/it/unimi/di/prog2/e05/ArrayUtils.java:46-61 | the same search with every miss reported as -1: the result lies in -1..length-1 and indexes the value when non-negative |
| ArrayUtilsMinusOne.MinusOneIffAbsent | src/main/java/it/unimi/di/prog2/e05/ArrayUtils.java:46-61 | on a sorted array the result is -1 exactly when the value does not occur |
| ListUtils.ShiftMidpoint | src/main/java/it/unimi/di/prog2/h06/ListUtils.java:48 | (lo + high) >>> 1 is the midpoint, between lo and high |
| ListUtils.BinarySearch | src/main/java/it/unimi/di/prog2/h06/ListUtils.java:45-58 | -1 or an index holding the needle; on a sorted list -1 exactly when the needle is absent |
| IntSetElements.IndexIn | src/main/java/it/unimi/di/prog2/h08/ArrayIntSet.java:69-75 | the index of the first occurrence, or -1 exactly when absent |
| IntSetElements.SwapRemoveElements | src/main/java/it/unimi/di/prog2/h08/ArrayIntSet.java:101-106 | moving the last element into the removed slot drops exactly that element and keeps the others distinct |
| IntSetElements.DistinctCardinality | src/main/java/it/unimi/di/prog2/h08/ArrayIntSet.java:129-131 | a list without duplicates has as many elements as the set it holds |
| ArrayIntSets.CopyOf | src/main/java/it/unimi/di/prog2/h08/ArrayIntSet.java:89 | Arrays.copyOf: a fresh array of the new length with the old prefix |
| ArrayIntSets.ArrayIntSet.constructor | src/main/java/it/unimi/di/prog2/h08/ArrayIntSet.java:54-57 | an empty set over an array of 16 slots |
| ArrayIntSets.ArrayIntSet.IndexOf | src/main/java/it/unimi/di/prog2/h08/ArrayIntSet.java:69-75 | the loop finds the first index of x among the elements, or -1 |
| ArrayIntSets.ArrayIntSet.Insert | src/main/java/it/unimi/di/prog2/h08/ArrayIntSet.java:85-91 | an absent x is appended, doubling the array when full; a present x changes nothing |
| ArrayIntSets.ArrayIntSet.Remove | src/main/java/it/unimi/di/prog2/h08/ArrayIntSet.java:101-106 | a present x is replaced by the last element and the size drops by one; an absent x changes nothing |
| ArrayIntSets.ArrayIntSet.IsIn | src/main/java/it/unimi/di/prog2/h08/ArrayIntSet.java:117-119 | true exactly when x is an element |
| ArrayIntSets.ArrayIntSet.Size | src/main/java/it/unimi/di/prog2/h08/ArrayIntSet.java:129-131 | the number of distinct elements |
| ArrayIntSets.ArrayIntSet.Choose | src/main/java/it/unimi/di/prog2/h08/ArrayIntSet.java:139-143 | IllegalStateException exactly for the empty set; otherwise an element |
| ListIntSets.ListIntSet.constructor | src/main/java/it/unimi/di/prog2/h17/ListIntSet.java:62-65 | an empty set |
| ListIntSets.ListIntSet.Insert | src/main/java/it/unimi/di/prog2/h17/ListIntSet.java:87-92 | an absent x is appended; the elements become the old ones plus x |
| ListIntSets.ListIntSet.Remove | src/main/java/it/unimi/di/prog2/h17/ListIntSet.java:101-108 | a present x is replaced by the last element; the elements become the old ones without x |
| ListIntSets.ListIntSet.Choose | src/main/java/it/unimi/di/prog2/h17/ListIntSet.java:116-119 | NoSuchElementException exactly for the empty set; otherwise the last element |
| MaxIntSets.MaxIntSet.constructor | src/main/java/it/unimi/di/prog2/h15/MaxIntSet.java:41-43 | an empty set |
| MaxIntSets.MaxIntSet.Insert | src/main/java/it/unimi/di/prog2/h15/MaxIntSet.java:46-49 | the parent's insert, with biggest raised to x when the set was empty or x is larger; the invariant "biggest is the maximum" is kept |
| MaxIntSets.MaxIntSet.Remove | src/main/java/it/unimi/di/prog2/h15/MaxIntSet.java:52-59 | the parent's remove; biggest is kept unless the maximum itself was removed, and then the loop recomputes it, so the invariant is kept |
| MaxIntSets.MaxIntSet.SuperInsert | src/main/java/it/unimi/di/prog2/h15/MaxIntSet.java:48 | the parent's insert keeps the elements distinct and appends x exactly when it was absent; biggest is untouched |
| MaxIntSets.MaxIntSet.SuperRemove | src/main/java/it/unimi/di/prog2/h15/MaxIntSet.java:53 | the parent's remove keeps the elements distinct, drops exactly x and leaves the set unchanged when x is absent; biggest is untouched |
| MaxIntSets.MaxIntSet.Max | src/main/java/it/unimi/di/prog2/h15/MaxIntSet.java:67-70 | NoSuchElementException exactly for the empty set; otherwise an element that no element exceeds |
| StringSources.Filter | src/main/java/it/unimi/di/prog2/e14/StringIterators.java:48-60 | the accepted strings, in order; every one is in the input and satisfies the predicate |
| StringSources.FilterKeeps | src/main/java/it/unimi/di/prog2/e14/StringIterators.java:48-60 | every input string that satisfies the predicate is kept |
| StringIterators.FilteringIterator.constructor | src/main/java/it/unimi/di/prog2/e14/StringIterators.java:41-47 | the new iterator has nothing buffered and will yield the accepted strings of the source, in order |
| StringIterators.FilteringIterator.HasNext | src/main/java/it/unimi/di/prog2/e14/StringIterators.java:48-60 | true exactly when some accepted string remains, which is then buffered; the remaining output is unchanged |
| StringIterators.FilteringIterator.Next | src/main/java/it/unimi/di/prog2/e14/StringIterators.java:63-70 | the next accepted string, and the output advances by one; IllegalStateException exactly when none remains |
| StringIterators.EvenIterator | src/main/java/it/unimi/di/prog2/e14/StringIterators.java:41-72 | the iterator returns exactly the strings whose length in UTF-16 units is even, in order |
| StringIterators.UppercaseIterator.constructor | src/main/java/it/unimi/di/prog2/e14/StringIterators.java:81-98 | the output is the input with each string upper-cased |
| StringIterators.UppercaseIterator.Next | src/main/java/it/unimi/di/prog2/e14/StringIterators.java:91-96 | the next upper-cased string, and the output advances by one; IllegalStateException exactly when none remains |
| IntRanges.Values | src/main/java/it/unimi/di/prog2/e14/IntRange.java:85-109 | the values an iterator yields: empty exactly when the start is not before the end in the step's direction |
| IntRanges.ValuesMeaning | src/main/java/it/unimi/di/prog2/e14/IntRange.java:85-109 | value i is from + i·step and lies before the end |
| IntRanges.EmptyWhenStartPastEnd | src/main/java/it/unimi/di/prog2/e14/IntRange.java:91-96 | a positive step from a start at or past the end yields nothing |
| IntRanges.IntRange.constructor | src/main/java/it/unimi/di/prog2/e14/IntRange.java:47-51 | from Integer.MIN_VALUE to Integer.MAX_VALUE with step 1 |
| IntRanges.IntRange.SetFrom | src/main/java/it/unimi/di/prog2/e14/IntRange.java:58-60 | sets the start and nothing else |
| IntRanges.IntRange.SetTo | src/main/java/it/unimi/di/prog2/e14/IntRange.java:67-69 | sets the end and nothing else |
| IntRanges.IntRange.SetStep | src/main/java/it/unimi/di/prog2/e14/IntRange.java:77-82 | IllegalArgumentException exactly for step 0, with no change; otherwise sets the step and nothing else |
| IntRanges.IntRange.Iterator | src/main/java/it/unimi/di/prog2/e14/IntRange.java:85-89 | a fresh iterator over this range, starting at the start, whose output is Values |
| IntRanges.RangeIterator.constructor | src/main/java/it/unimi/di/prog2/e14/IntRange.java:88-90 | the iterator reads the given range and starts at its current start |
| IntRanges.RangeIterator.Next | src/main/java/it/unimi/di/prog2/e14/IntRange.java:99-107 | the current value and a move by the step; IllegalStateException exactly when nothing remains |
| IntRanges.LiveEnd | src/main/java/it/unimi/di/prog2/e14/IntRange.java:91-107 | the iterator reads the range's fields live: lowering the end to 4 after the first value stops the iteration after 0 and 3 |
| IntGenerators.IntGenerator.constructor | src/main/java/it/unimi/di/prog2/h13/IntGenerator.java:46-50 | the iterator will yield the first size elements |
| IntGenerators.IntGenerator.Next | src/main/java/it/unimi/di/prog2/h13/IntGenerator.java:58-61 | the next element, and the index advances by one; NoSuchElementException exactly when none remains |
| FilteredStringIterators.FilteredStringIterator.constructor | src/main/java/it/unimi/di/prog2/h13/FilteredStringIterator.java:58-62 | nothing is buffered at the start |
| FilteredStringIterators.FilteredStringIterator.HasNext | src/main/java/it/unimi/di/prog2/h13/FilteredStringIterator.java:65-72 | with a buffered string, true at once; otherwise true exactly when some accepted string remains, which is buffered; when false, the last string drawn stays in the buffer even though it was rejected |
| FilteredStringIterators.FilteredStringIterator.Next | src/main/java/it/unimi/di/prog2/h13/FilteredStringIterator.java:75-80 | returns and clears the buffered string; otherwise the next accepted string; NoSuchElementException exactly when there is none |
| FilteredStringIterators.RejectedCandidateReturned | src/main/java/it/unimi/di/prog2/h13/FilteredStringIterator.java:65-80 | over ["a"] with the suffix "x", hasNext is false, but a second hasNext is true and next returns the rejected "a" |
| FilteredStringIterators.RejectedCandidateDropped | src/main/java/it/unimi/di/prog2/e14/StringIterators.java:48-60 | the filtering iterator that clears a rejected candidate gives false twice and next fails |
| StringEndsWiths.TestMeaning | src/main/java/it/unimi/di/prog2/h13/StringEndsWith.java:55-57 | test holds exactly for the strings that are some string followed by the suffix |
| StringEndsWiths.AcceptsAnyPrefix | src/main/java/it/unimi/di/prog2/h13/StringEndsWith.java:55-57 | the suffix itself and anything followed by it pass |
| Watches.Gear.constructor | src/main/java/it/unimi/di/prog2/h14/member/Watch.java:51-55 | a gear with a positive diameter starts with 0 rotations |
| Watches.NewGear | src/main/java/it/unimi/di/prog2/h14/member/Watch.java:51-55 | IllegalArgumentException exactly for a diameter that is not positive |
| Watches.Gear.Tick | src/main/java/it/unimi/di/prog2/h14/member/Watch.java:58-60 | one more rotation |
| Watches.Watch.constructor | src/main/java/it/unimi/di/prog2/h14/member/Watch.java:91-95 | the watch holds the model and the list of gears |
| Watches.NewWatch | src/main/java/it/unimi/di/prog2/h14/member/Watch.java:91-95 | IllegalArgumentException exactly for an empty model name |
| Watches.Watch.Tick | src/main/java/it/unimi/di/prog2/h14/member/Watch.java:98-100 | every gear gains one rotation per occurrence in the list |
| Watches.Watch.Iterator | src/main/java/it/unimi/di/prog2/h14/member/Watch.java:103-106 | always UnsupportedOperationException |
| Watches.GearListedTwice | src/main/java/it/unimi/di/prog2/h14/member/Watch.java:98-100 | a gear listed twice in one watch turns twice in one tick |
| Watches.SharedGear | src/main/java/it/unimi/di/prog2/h14/member/Watch.java:98-100 | a gear shared by two watches turns once for each watch's tick |
| Books.Chapter.constructor | src/main/java/it/unimi/di/prog2/h14/member/Book.java:70-74 | a chapter holds its title and its enclosing book |
| Books.Book.constructor | src/main/java/it/unimi/di/prog2/h14/member/Book.java:109-113 | a book with the title and no chapters |
| Books.NewBook | src/main/java/it/unimi/di/prog2/h14/member/Book.java:109-113 | IllegalArgumentException exactly for an empty title |
| Books.Book.AddChapter | src/main/java/it/unimi/di/prog2/h14/member/Book.java:122-124 | IllegalArgumentException exactly for an empty title; otherwise the chapter titles gain the new one at the end, and the new chapter's book is this book |
| Books.Book.ToString | src/main/java/it/unimi/di/prog2/h14/member/Book.java:132-138 | the title, then each chapter title after "\n- " |
| Books.JoinAppend | src/main/java/it/unimi/di/prog2/h14/member/Book.java:132-138 | one more chapter adds the separator and its title at the end |
| SommaArray.SumSnoc | src/main/java/it/unimi/di/prog2/h03/SommaArray.java:38-44 | the sum of a list with one more value adds that value |
| SommaArray.Somma | src/main/java/it/unimi/di/prog2/h03/SommaArray.java:38-44 | the loop returns the sum of the array |
| SommaList.Somma | src/main/java/it/unimi/di/prog2/h04/SommaList.java:44-50 | the loop returns the sum of the list |
| Bandiera.MaxLength | src/main/java/it/unimi/di/prog2/h04/BandieraList.java:57-61 | 0 for no words; otherwise the UTF-16 length of some word, and no word is longer |
| Bandiera.ReplaceSpaces | src/main/java/it/unimi/di/prog2/h04/BandieraList.java:72 | every space becomes '#', and every other character stays |
| Bandiera.FlagLineShape | src/main/java/it/unimi/di/prog2/h04/BandieraVector.java:77 | a word without spaces is padded on the left with '#' to the full width, counted in UTF-16 units |

## Left out

- Java's 32-bit `int` arithmetic. Every int is an unbounded integer and
  nothing wraps around. The exceptions are the places where the source
  reads the int range explicitly: the bounds of `IntRange`, the
  `Integer.MIN_VALUE` start of `MaxIntSet.remove`, and the int range that
  `Integer.parseInt` accepts.
- IntRanges.RangeIterator.Next: the `current += step` that wraps around past
  `Integer.MAX_VALUE` is not modelled, so a range that ends at
  `Integer.MAX_VALUE` is finite here.
- AstronomicalSystems.AstronomicalSystem.TotalEnergy: the sum is not
  truncated to 32 bits.
- SommaArray.Somma: the sum is not truncated to 32 bits.
- SommaList.Somma: the sum is not truncated to 32 bits.
- BoundedIntQueues.BoundedIntQueue.HashCode: the sum is not truncated to
  32 bits.
- The exact values of `hashCode` built from the library's hashes
  (`StringToIntMap`, `RationalNumber`, `CurrencyAmount`, `Entry`). The h11
  `DensePoly.hashCode` is `Arrays.hashCode`, 31·h + e over the
  coefficients, without the 32-bit wrap-around.
- `toString` of `StringToIntMap`, `BoundedIntQueue`, `RationalNumber`,
  `GuestList`, `MaxIntSet`, `Watch`, `Gear` and `Book.Chapter`. They are
  string formatting through the library; `Gear` also prints a `double`.
- The clients, `main`, `read` and `print` methods, including s06 `print` and
  the e06 `print` stub. They do console I/O. Only the flag line that
  `BandieraList`/`BandieraVector` `main` prints is modelled.
- JavaString.ParseInt: only the ASCII digits '0' to '9' are read.
  `Integer.parseInt` also accepts the other Unicode decimal digits, such as
  the Arabic-Indic ones, through `Character.digit`.
- CurrencyAmounts.Parse: for the same reason, units or cents written with
  non-ASCII decimal digits are rejected here, where Java accepts them.
- The null checks (`Objects.requireNonNull`) and null
  elements. Dafny references here are never null.
- `String.toUpperCase` is a function parameter of the upper-casing
  iterator, and `Predicate<String>` is a function parameter of the
  filtering iterators. Case mapping is not modelled.
- The wrapped `Iterator<String>` is a `StringSource` over a fixed sequence.
  Arbitrary iterator implementations are not modelled.
- `GuestList.guests()` returns an unmodifiable view. The model exposes the
  `guests` sequence field instead.
- `ListIntSet.iterator()` and `Book.iterator()` return read-only views of
  the element and chapter lists. The model exposes those sequences.
- The unseen supertypes: `AbstractIntSet` of h17, and the h15 `ArrayIntSet`
  that `MaxIntSet` extends. `MaxIntSet`'s parent is modelled by
  SuperInsert and SuperRemove with the h08 `ArrayIntSet` behaviour.
- The h13 `ArrayIntSet` that builds `IntGenerator` is not part of this
  model. Its guarantee `0 <= size <= els.length` is the constructor's
  precondition.
- `Gear`'s diameter is a `double`. It is a positive `real` that nothing
  reads.
- `Book.Chapter.title()`, `Book.Chapter.book()`, `Watch.Gear.rotations()`,
  the `SpacePoint` coordinate getters, `Planet.getVelocity` and
  `CelestialBody.getName`/`getPosition` are field reads. The model reads
  the fields.

## Findings

| source | as written | input that shows it | evidently intended | confidence | as-written member | corrected member |
|---|---|---|---|---|---|---|
| src/main/java/it/unimi/di/prog2/e12/RationalNumber.java:52-62 | the constructor reduces by the gcd but leaves the sign where it is, and equals compares the fields | `new RationalNumber(1, -2).equals(new RationalNumber(-1, 2))` is false although both are -1/2 | move the sign into the numerator so that equals is equality of values | high, not executed | RationalNumbers.SignNotNormalised | RationalNumbers.CanonicalEqualsIffSameValue |
| src/main/java/it/unimi/di/prog2/h12/CurrencyAmount.java:100-125 | `split("\\.")` drops trailing empty pieces, and `Integer.parseInt` takes a leading '+' | `parseCurrencyAmount("1.00.")` gives 1.00 and `parseCurrencyAmount("1.+5")` gives 1.05 | accept only the documented format: an optional '-', digits, '.', two digits | high, not executed | CurrencyAmounts.ParseAcceptsTrailingDot | CurrencyAmounts.ParseStrictMeaning |
| src/main/java/it/unimi/di/prog2/h11/DensePoly.java:76-79 | the copy constructor builds a new object even for ZERO, but isZero tests identity with ZERO | `new DensePoly(DensePoly.ZERO)`: isZero() is false, degree() throws, yet it equals ZERO | a copy of the zero polynomial is the zero polynomial | medium, not executed | DensePolysWithZero.CopyOfZero | DensePolysWithZero.CopyKeepingZero |
| src/main/java/it/unimi/di/prog2/h13/FilteredStringIterator.java:65-72 | hasNext leaves the last rejected string in `next` when the source runs out | over ["a"] with suffix "x": hasNext() false, then hasNext() true and next() returns "a" | clear a rejected candidate, so hasNext stays false and next throws | high, not executed | FilteredStringIterators.RejectedCandidateReturned | FilteredStringIterators.RejectedCandidateDropped |
