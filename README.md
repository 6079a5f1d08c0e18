# jdbi-folder mapper registry, modelled in Dafny

This project models `CustomMapperFactory`, the mapper registry of jdbi-folder. The
registry is a factory plugged into JDBI. It answers whether it handles a requested
target class, and it hands out row mappers (`CustomMapper`) bound to that class. It
also keeps an ordered list of field-mapping override factories (`FieldMapperFactory`),
and every mapper it produces shares that list.

- `registry.dfy` (module `Registry`) holds the factory as a class with the source's two
  fields. `excludedTypes` is a sequence filled by a loop in the constructor.
  `overriddenFactories` is a reference to a heap object (`OverrideList`), because the
  source passes that same list object to every mapper it builds. `CustomMapper` is
  opaque apart from the two things it is bound to: the requested type and the override
  list. Target classes are an opaque type `T` with equality, standing for
  `Class.equals`, which is identity. Override factories are an opaque type `F`. The
  JDBI statement context is a type parameter `C` that is passed along and never read.
- `registry.dfy` also defines `IndexOf`, which computes `List.contains` the way the
  list does: it scans for the first equal element.
- `usage.dfy` (module `RegistryUsage`) describes how a host drives the factory.
  `Replay` constructs a factory and performs any sequence of `register` and
  `mapperFor` calls. It is proved against two pure functions of the call sequence,
  `Registered` and `Requested`. Its contract states the aliasing behaviour: every
  mapper, whenever it was requested, ends up seeing all the overrides registered
  through its factory, in registration order (given that a mapper keeps the list it is
  handed; see "## Left out"). `MapperSeesEarlierAndLaterOverrides` states this for one
  mapper requested between two runs of calls. Two smaller methods are the flow of the
  override test and the excluded-type case.

Facts about the code that the model keeps:
- `excludedTypes` is a list, so order and duplicates are kept.
- `mapperFor` never reads `excludedTypes`, so it returns a mapper even for an excluded
  type (`MapperFor`, `MapperForExcludedType`).
- The override list is passed to each new mapper by reference (`MapperFor`, `Replay`).

## Model

| member | source | states |
|---|---|---|
| `Registry.IndexOf` | src/main/java/in/folder/jdbi/mapper/CustomMapperFactory.java:23 | the list lookup behind `contains`: the result is -1 exactly when the element is absent; otherwise it is a position holding the element with no earlier occurrence |
| `Registry.OverrideList.constructor` | src/main/java/in/folder/jdbi/mapper/CustomMapperFactory.java:13 | the override list starts out empty |
| `Registry.OverrideList.Add` | src/main/java/in/folder/jdbi/mapper/CustomMapperFactory.java:32 | the override list becomes the old list followed by the new factory; duplicates are kept |
| `Registry.CustomMapper.constructor` | src/main/java/in/folder/jdbi/mapper/CustomMapperFactory.java:28 | a mapper is bound to the given type and to the list reference it is given (the model assumes the mapper keeps that reference; see "## Left out") |
| `Registry.CustomMapperFactory.constructor` | src/main/java/in/folder/jdbi/mapper/CustomMapperFactory.java:12-19 | after construction the excluded types equal the varargs in the same order, and the override list is a fresh, empty list |
| `Registry.CustomMapperFactory.Accepts` | src/main/java/in/folder/jdbi/mapper/CustomMapperFactory.java:22-24 | the answer is false exactly when the type is among the excluded types, i.e. when some position holds it, and true otherwise; it reads only the factory |
| `Registry.CustomMapperFactory.AcceptsIgnoresContext` | src/main/java/in/folder/jdbi/mapper/CustomMapperFactory.java:22-24 | the context argument has no influence on `accepts` |
| `Registry.CustomMapperFactory.MapperFor` | src/main/java/in/folder/jdbi/mapper/CustomMapperFactory.java:27-29 | returns a new mapper bound to the requested type and to the factory's own override list; excluded types are not consulted, and neither the factory nor the list changes |
| `Registry.CustomMapperFactory.Register` | src/main/java/in/folder/jdbi/mapper/CustomMapperFactory.java:31-33 | appends the factory at the end of the shared override list; it changes only that list, so the excluded types, and with them every `accepts` answer, stay as they were |
| `RegistryUsage.RegisteredConcat` | src/main/java/in/folder/jdbi/mapper/CustomMapperFactory.java:31-33 | the overrides registered by two consecutive runs of calls are those of the first run followed by those of the second |
| `RegistryUsage.RequestedConcat` | src/main/java/in/folder/jdbi/mapper/CustomMapperFactory.java:27-29 | the types requested by two consecutive runs of calls are those of the first run followed by those of the second |
| `RegistryUsage.MapperForRegistersNothing` | src/main/java/in/folder/jdbi/mapper/CustomMapperFactory.java:27-29 | a mapperFor call registers nothing: the overrides registered around it are those of the calls before it followed by those of the calls after it |
| `RegistryUsage.RequestedAround` | src/main/java/in/folder/jdbi/mapper/CustomMapperFactory.java:27-29 | the types requested around a mapperFor call are those before it, then its own type, then those after it |
| `RegistryUsage.MapperSeesEarlierAndLaterOverrides` | src/main/java/in/folder/jdbi/mapper/CustomMapperFactory.java:27-33 | a mapper requested between two runs of calls is bound to its type and ends up seeing the overrides registered in both runs, the earlier ones first |
| `RegistryUsage.Replay` | src/main/java/in/folder/jdbi/mapper/CustomMapperFactory.java:15-33 | after any sequence of register and mapperFor calls, the excluded types are those given at construction; the override list holds every registered factory in call order; the k-th mapper is bound to the k-th requested type and sees that whole list, including registrations made after it was handed out; the factory, its override list and every mapper are new objects (so a caller may go on registering), the mappers are pairwise distinct, and each holds the factory's own list object |
| `RegistryUsage.RegisterAfterReplay` | src/main/java/in/folder/jdbi/mapper/CustomMapperFactory.java:27-33 | after any replayed sequence of calls, one more registration reaches every mapper already handed out: each then sees the replayed overrides followed by the new one |
| `RegistryUsage.RegisterThenMapperFor` | src/test/java/in/folder/jdbi/mapper/CustomMapperTest.java:119-131 | a factory built with no exclusions accepts the type; after one registration, a mapper it hands out is bound to the type and sees exactly that override |
| `RegistryUsage.MapperForExcludedType` | src/main/java/in/folder/jdbi/mapper/CustomMapperFactory.java:22-29 | for a type given as excluded, `accepts` is false, yet `mapperFor` still returns a mapper bound to that type, with an empty override list |

## Left out

- The row-mapping algorithm of `CustomMapper` is not modelled: reflection over fields, case-insensitive column lookup, `@ColumnName`, null handling and the typed JDBC reads. `CustomMapper`'s own code is not part of this model; it depends on Java reflection and `java.sql.ResultSet`. The mapper is kept opaque apart from its type and its override list.
- Registry.CustomMapper.constructor: the model assumes that `CustomMapper` keeps the list reference it is given rather than copying it. Its constructor is not part of this model, so this cannot be read from the code. What `Replay`, `MapperSeesEarlierAndLaterOverrides` and `RegisterAfterReplay` state about registrations made after a mapper was handed out depends on that assumption.
- The JDBI interfaces (`ResultSetMapperFactory`, `ResultSetMapper`, `StatementContext`) are foreign library types. The context is a type parameter that is never inspected.
- The internals of `FieldMapperFactory` and `BigDecimalMapperFactory` are not part of this model. Override factories are an opaque element type.
- Passing a null varargs array to the constructor makes the Java loop throw `NullPointerException`. A Dafny sequence cannot be null, so that path is not modelled.
- Concurrent reads of the shared override list while another thread appends to it are left out. The source has no synchronisation, and that is the host's concern.
- Test fixtures (`SampleBean`, the mocks, `BigDecimal` values) are left out.
