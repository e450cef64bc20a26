/** The ReproInventory entry type: the closed enumerations its categorical
    fields draw from, the entry record, the type guard and the normaliser
    that maps every declared field to itself or to null. */
module Inventory {
  import opened Wrappers
  import opened Values

  /* ---------------- Enumerations ---------------- */

  datatype EnumType =
    | LevelEnum | PlatformEnum | CourseLengthEnum | ContentFormatEnum | DeliveryEnum
    | LanguageEnum | ProgrammingLanguageEnum | NeuroimagingSoftwareEnum
    | ImagingModalityEnum | OpenDatasetEnum | QuadrantsEnum

  /** The string values of each enumeration, in declaration order. */
  function Members(e: EnumType): seq<string> {
    match e
    case LevelEnum => ["Beginner", "Intermediate", "Advanced", "NA"]
    case PlatformEnum => ["Mac", "Windows", "Linux", "Docker", "Jupyter", "NA"]
    case CourseLengthEnum => ["<1 hr", "1-4 hrs", "1 day", "1-3 days", "1 week", "1+ weeks", "NA"]
    case ContentFormatEnum =>
      ["Hands-on tutorial / notebooks", "lecture", "video", "notes", "blog post",
       "reference", "slides", "website", "outline", "meta-resource", "NA"]
    case DeliveryEnum => ["self-paced", "instructor", "Hybrid", "Discussion needed"]
    case LanguageEnum =>
      ["English", "French", "Spanish", "Chinese", "German", "English, French",
       "English, German", "Other", "NA"]
    case ProgrammingLanguageEnum => ["Python", "R", "shell scripting", "Matlab", "Git", "NA"]
    case NeuroimagingSoftwareEnum => ["AFNI", "SPM", "FSL", "Freesurfer", "Python", "Multiple", "NA"]
    case ImagingModalityEnum =>
      ["DWI", "Structural", "Functional", "Task-based", "Resting-State", "EEG",
       "Behavioral", "MEG", "MRI", "NA"]
    case OpenDatasetEnum => ["True", "False", "NA"]
    case QuadrantsEnum =>
      ["information-oriented (reference)", "understanding-oriented (explanation)",
       "learning-oriented (tutorials)", "problem-oriented (how to guides)", "NA"]
  }

  /** Every enumeration offers "NA" except the delivery one. */
  lemma NotApplicableEverywhereButDelivery(e: EnumType)
    ensures "NA" in Members(e) <==> e != DeliveryEnum
  {
  }

  /* ---------------- The entry record ---------------- */

  /** The 25 declared fields of an entry. */
  datatype Field =
    | Id | TagTeam | CourseName | Url | Level | Platform | Keywords | CourseLength
    | InstructionMedium | Delivery | Language | ProgrammingLanguage | NeuroimagingSoftware
    | ImagingModality | OpenDataset | LastUpdated | Functionality | Assessment
    | Prerequisite | Source | Review | ExcludeFromReproInventory | AliasLinks | Notes | Quadrants

  /** An object of the entry type. Each declared field is `None` when the
      key is absent (`undefined`) and `Some(v)` when present, `Some(Null)`
      being an explicit `null`; `extra` holds any further keys, which the
      structural type lets through; it holds only undeclared keys, since a
      declared key such as `id` is always its own field and never also in
      `extra`. Field values are dynamically typed:
      multi-valued fields hold `List` (or `Null`), the yes/no fields `Bool`
      or `Text("NA")`, as the generator writes them. */
  datatype Entry = Entry(
    id: Option<Value>,
    tagTeam: Option<Value>,
    courseName: Option<Value>,
    url: Option<Value>,
    level: Option<Value>,
    platform: Option<Value>,
    keywords: Option<Value>,
    courseLength: Option<Value>,
    instructionMedium: Option<Value>,
    delivery: Option<Value>,
    language: Option<Value>,
    programmingLanguage: Option<Value>,
    neuroimagingSoftware: Option<Value>,
    imagingModality: Option<Value>,
    openDataset: Option<Value>,
    lastUpdated: Option<Value>,
    functionality: Option<Value>,
    assessment: Option<Value>,
    prerequisite: Option<Value>,
    source: Option<Value>,
    review: Option<Value>,
    excludeFromReproInventory: Option<Value>,
    aliasLinks: Option<Value>,
    notes: Option<Value>,
    quadrants: Option<Value>,
    extra: map<string, Value>)

  /** `entry[field]`. */
  function Get(e: Entry, f: Field): Option<Value> {
    match f
    case Id => e.id
    case TagTeam => e.tagTeam
    case CourseName => e.courseName
    case Url => e.url
    case Level => e.level
    case Platform => e.platform
    case Keywords => e.keywords
    case CourseLength => e.courseLength
    case InstructionMedium => e.instructionMedium
    case Delivery => e.delivery
    case Language => e.language
    case ProgrammingLanguage => e.programmingLanguage
    case NeuroimagingSoftware => e.neuroimagingSoftware
    case ImagingModality => e.imagingModality
    case OpenDataset => e.openDataset
    case LastUpdated => e.lastUpdated
    case Functionality => e.functionality
    case Assessment => e.assessment
    case Prerequisite => e.prerequisite
    case Source => e.source
    case Review => e.review
    case ExcludeFromReproInventory => e.excludeFromReproInventory
    case AliasLinks => e.aliasLinks
    case Notes => e.notes
    case Quadrants => e.quadrants
  }

  /** `isReproInventoryEntry`: the only thing checked is that there is an
      `id` key; its value may even be null. */
  predicate IsReproInventoryEntry(o: Entry) {
    o.id.Some?
  }

  /** The guard looks at nothing but the presence of the `id` key: two
      objects that both have it, or both lack it, get the same answer. */
  lemma GuardReadsIdKeyOnly(o: Entry, p: Entry)
    requires o.id.Some? <==> p.id.Some?
    ensures IsReproInventoryEntry(o) <==> IsReproInventoryEntry(p)
  {
  }

  /** The key written as `key: value ?? null`: always present, holding
      the value, or null when the value is absent. */
  function OrNull(v: Option<Value>): Option<Value> {
    if v.Some? then v else Some(Null)
  }

  /** `toReproInventoryEntry`: an object holding exactly the declared keys,
      each with the input's value, or null where the input has none. */
  function ToEntry(o: Entry): (r: Entry)
    ensures forall f :: Get(o, f).Some? && Get(o, f) != Some(Null) ==> Get(r, f) == Get(o, f)
    ensures forall f :: Get(o, f).None? || Get(o, f) == Some(Null) ==> Get(r, f) == Some(Null)
    ensures r.extra == map[]
  {
    Entry(
      OrNull(o.id),
      OrNull(o.tagTeam),
      OrNull(o.courseName),
      OrNull(o.url),
      OrNull(o.level),
      OrNull(o.platform),
      OrNull(o.keywords),
      OrNull(o.courseLength),
      OrNull(o.instructionMedium),
      OrNull(o.delivery),
      OrNull(o.language),
      OrNull(o.programmingLanguage),
      OrNull(o.neuroimagingSoftware),
      OrNull(o.imagingModality),
      OrNull(o.openDataset),
      OrNull(o.lastUpdated),
      OrNull(o.functionality),
      OrNull(o.assessment),
      OrNull(o.prerequisite),
      OrNull(o.source),
      OrNull(o.review),
      OrNull(o.excludeFromReproInventory),
      OrNull(o.aliasLinks),
      OrNull(o.notes),
      OrNull(o.quadrants),
      map[])
  }

  /** The normaliser accepts its own output unchanged. */
  lemma ToEntryIdempotent(o: Entry)
    ensures ToEntry(ToEntry(o)) == ToEntry(o)
  {
  }

  /** Every normalised object passes the guard, even one that had no id. */
  lemma NormalisedPassesGuard(o: Entry)
    ensures IsReproInventoryEntry(ToEntry(o))
  {
  }

  /** The normalised object depends only on the declared fields. */
  lemma UndeclaredKeysIgnored(o: Entry, extra: map<string, Value>)
    ensures ToEntry(o.(extra := extra)) == ToEntry(o)
  {
  }
}
