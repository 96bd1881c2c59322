/**
  The compile-time tables of app/lib/constants.ts: the recipe registry, plan
  limits, accepted upload types, confidence thresholds, classifier settings,
  seniority labels and preview sizes.
 */
module Constants {

  /** `RecipeType` (app/types/index.ts). */
  datatype RecipeType =
    | DedupeByColumns
    | NormalizeDates
    | NormalizePhones
    | NormalizeEmails
    | TitleCaseNames
    | MapJobTitles
    | NormalizeCompanies
  {
    /** The string literal of the union. */
    function Name(): string
    {
      match this
      case DedupeByColumns => "dedupe_by_columns"
      case NormalizeDates => "normalize_dates"
      case NormalizePhones => "normalize_phones"
      case NormalizeEmails => "normalize_emails"
      case TitleCaseNames => "title_case_names"
      case MapJobTitles => "map_job_titles"
      case NormalizeCompanies => "normalize_companies"
    }
  }

  /** The engine literals the registry uses: `pandas`, `hybrid` and `llm`. */
  datatype Engine = Pandas | Hybrid | Llm

  datatype Category = Cleaning | Normalization | Formatting | Enrichment

  /** One `RECIPES` entry. An absent `requiresPro` reads as `false`. */
  datatype RecipeConfig = RecipeConfig(
    id: string,
    name: string,
    description: string,
    category: Category,
    engine: Engine,
    icon: string,
    requiresColumns: bool,
    requiresPro: bool)

  /** `RECIPES`, keyed by string as the object literal is. */
  const Recipes: map<string, RecipeConfig> := map[
    "dedupe_by_columns" := RecipeConfig(
      "dedupe_by_columns", "Remove Duplicates", "Remove duplicate rows based on selected columns",
      Cleaning, Pandas, "\U{1F5D1}\U{FE0F}", true, false),
    "normalize_dates" := RecipeConfig(
      "normalize_dates", "Normalize Dates", "Convert dates to ISO format (YYYY-MM-DD)",
      Normalization, Hybrid, "\U{1F4C5}", true, false),
    "normalize_phones" := RecipeConfig(
      "normalize_phones", "Normalize Phone Numbers", "Standardize phone numbers to E.164 format",
      Normalization, Hybrid, "\U{1F4DE}", true, false),
    "normalize_emails" := RecipeConfig(
      "normalize_emails", "Normalize Emails", "Trim, lowercase, and validate email addresses",
      Normalization, Pandas, "\U{1F4E7}", true, false),
    "title_case_names" := RecipeConfig(
      "title_case_names", "Title Case Names", "Convert names to proper title case",
      Formatting, Pandas, "\U{2728}", true, false),
    "map_job_titles" := RecipeConfig(
      "map_job_titles", "Map Job Titles to Seniority", "Classify job titles into seniority levels",
      Enrichment, Llm, "\U{1F4BC}", true, true),
    "normalize_companies" := RecipeConfig(
      "normalize_companies", "Normalize Company Names", "Standardize company names and remove legal suffixes",
      Enrichment, Llm, "\U{1F3E2}", true, true)
  ]

  /** `RECIPES[r]` for a member of the union. */
  function Recipe(r: RecipeType): (c: RecipeConfig)
    ensures c.id == r.Name()
  {
    RecipeKeysCoverUnion();
    Recipes[r.Name()]
  }

  /** Every literal of the union is a key, and that entry's `id` is the literal. */
  lemma RecipeKeysCoverUnion()
    ensures forall r: RecipeType :: r.Name() in Recipes && Recipes[r.Name()].id == r.Name()
  {
    forall r: RecipeType
      ensures r.Name() in Recipes && Recipes[r.Name()].id == r.Name()
    {
    }
  }

  /** Every key of the table is a literal of the union. */
  lemma RecipeKeysAreNames()
    ensures forall key | key in Recipes :: exists r: RecipeType :: r.Name() == key
  {
    forall key | key in Recipes
      ensures exists r: RecipeType :: r.Name() == key
    {
      var r := if key == "dedupe_by_columns" then DedupeByColumns
        else if key == "normalize_dates" then NormalizeDates
        else if key == "normalize_phones" then NormalizePhones
        else if key == "normalize_emails" then NormalizeEmails
        else if key == "title_case_names" then TitleCaseNames
        else if key == "map_job_titles" then MapJobTitles
        else NormalizeCompanies;
      assert r.Name() == key;
    }
  }

  /** Distinct recipes have distinct literals. */
  lemma RecipeNamesDistinct(a: RecipeType, b: RecipeType)
    ensures a.Name() == b.Name() ==> a == b
  {
  }

  /** The Pro-only recipes are the two classifier recipes; every recipe needs columns. */
  lemma RecipeEntitlements(r: RecipeType)
    ensures Recipe(r).requiresPro <==> r == MapJobTitles || r == NormalizeCompanies
    ensures Recipe(r).requiresPro <==> Recipe(r).engine == Llm
    ensures Recipe(r).requiresColumns
  {
  }

  /** Dates and phones are hybrid; the other recipes that are not classifier recipes use pandas. */
  lemma RecipeEngines(r: RecipeType)
    ensures Recipe(r).engine == Hybrid <==> r == NormalizeDates || r == NormalizePhones
    ensures Recipe(r).engine == Pandas <==> r in {DedupeByColumns, NormalizeEmails, TitleCaseNames}
  {
  }

  // ------------------------------------------------------------ plan limits

  /** `UserPlan` (app/types/index.ts). */
  datatype UserPlan = Free | Pro

  datatype PlanLimits = PlanLimits(maxFileSizeMB: nat, maxFileSizeBytes: nat, maxRows: nat, maxJobsPerDay: nat)

  /** `FILE_LIMITS[plan]` */
  function FileLimits(plan: UserPlan): (l: PlanLimits)
    ensures l.maxFileSizeBytes == l.maxFileSizeMB * 1024 * 1024
  {
    match plan
    case Free => PlanLimits(5, 5 * 1024 * 1024, 5000, 2)
    case Pro => PlanLimits(50, 50 * 1024 * 1024, 100000, 1000)
  }

  /** Every Pro limit is larger than the matching Free limit. */
  lemma ProLimitsExceedFree()
    ensures FileLimits(Pro).maxFileSizeMB > FileLimits(Free).maxFileSizeMB
    ensures FileLimits(Pro).maxFileSizeBytes > FileLimits(Free).maxFileSizeBytes
    ensures FileLimits(Pro).maxRows > FileLimits(Free).maxRows
    ensures FileLimits(Pro).maxJobsPerDay > FileLimits(Free).maxJobsPerDay
  {
  }

  datatype RateLimit = RateLimit(requestsPerMinute: nat, requestsPerHour: nat)

  /** `RATE_LIMITS[plan]` */
  function RateLimits(plan: UserPlan): (l: RateLimit)
    ensures l.requestsPerMinute <= l.requestsPerHour
  {
    match plan
    case Free => RateLimit(10, 100)
    case Pro => RateLimit(60, 1000)
  }

  lemma ProRatesExceedFree()
    ensures RateLimits(Pro).requestsPerMinute > RateLimits(Free).requestsPerMinute
    ensures RateLimits(Pro).requestsPerHour > RateLimits(Free).requestsPerHour
  {
  }

  // ---------------------------------------------------------- upload types

  const AllowedMimeTypes: seq<string> := [
    "text/csv",
    "application/vnd.ms-excel",
    "application/vnd.openxmlformats-officedocument.spreadsheetml.sheet"
  ]

  const AllowedFileExtensions: seq<string> := [".csv", ".xls", ".xlsx"]

  /** Each allowed extension is a `.` followed by at least two characters, none of them `.`. */
  lemma AllowedExtensionsAreDotSuffixes()
    ensures forall e | e in AllowedFileExtensions :: |e| >= 2 && e[0] == '.' && '.' !in e[1..]
  {
    assert AllowedFileExtensions[0][1..] == "csv";
    assert AllowedFileExtensions[1][1..] == "xls";
    assert AllowedFileExtensions[2][1..] == "xlsx";
  }

  // ------------------------------------------------- thresholds and settings

  const DataRetentionDays := 7

  /** `CONFIDENCE_THRESHOLDS`, in hundredths. */
  datatype ConfidenceThresholds = ConfidenceThresholds(high: nat, medium: nat, low: nat, needsReview: nat)

  const Thresholds := ConfidenceThresholds(90, 70, 50, 85)

  lemma ThresholdsOrdered()
    ensures Thresholds.low < Thresholds.medium < Thresholds.needsReview < Thresholds.high <= 100
  {
  }

  const SecondsPerDay := 24 * 60 * 60

  /** `LLM_CONFIG`; the timeout is in milliseconds and the cache expiration in seconds. */
  datatype LlmConfig = LlmConfig(maxRetries: nat, timeoutMs: nat, batchSize: nat, cacheExpirationSeconds: nat)

  const LlmSettings := LlmConfig(1, 30000, 100, 30 * 24 * 60 * 60)

  lemma LlmSettingsUnits()
    ensures LlmSettings.cacheExpirationSeconds == 30 * SecondsPerDay == 2592000
    ensures LlmSettings.timeoutMs == 30 * 1000
  {
  }

  /** `JobTitleClassification.label` (app/types/index.ts). */
  datatype SeniorityLabel = Intern | Junior | Mid | Senior | Lead | Director | VP | CLevel | Unknown
  {
    function Name(): string
    {
      match this
      case Intern => "Intern"
      case Junior => "Junior"
      case Mid => "Mid"
      case Senior => "Senior"
      case Lead => "Lead"
      case Director => "Director"
      case VP => "VP"
      case CLevel => "C-Level"
      case Unknown => "Unknown"
    }
  }

  const JobSeniorityLevels: seq<string> :=
    ["Intern", "Junior", "Mid", "Senior", "Lead", "Director", "VP", "C-Level", "Unknown"]

  /** The union's order, as the constant lists it. */
  const SeniorityLabels: seq<SeniorityLabel> := [Intern, Junior, Mid, Senior, Lead, Director, VP, CLevel, Unknown]

  /** Distinct labels have distinct literals. */
  lemma SeniorityNamesDistinct(a: SeniorityLabel, b: SeniorityLabel)
    ensures a.Name() == b.Name() ==> a == b
  {
  }

  /** Nine labels ending in `Unknown`, the same set as the classification label type. */
  lemma SeniorityLevelsMatchLabels()
    ensures |JobSeniorityLevels| == 9 && JobSeniorityLevels[8] == Unknown.Name()
    ensures forall i | 0 <= i < 9 :: JobSeniorityLevels[i] == SeniorityLabels[i].Name()
    ensures forall l: SeniorityLabel :: l.Name() in JobSeniorityLevels
    ensures forall s | s in JobSeniorityLevels :: exists l: SeniorityLabel :: l.Name() == s
  {
    assert forall i | 0 <= i < 9 :: JobSeniorityLevels[i] == SeniorityLabels[i].Name();
    forall l: SeniorityLabel ensures l.Name() in JobSeniorityLevels {
      match l
      case Intern => assert JobSeniorityLevels[0] == l.Name();
      case Junior => assert JobSeniorityLevels[1] == l.Name();
      case Mid => assert JobSeniorityLevels[2] == l.Name();
      case Senior => assert JobSeniorityLevels[3] == l.Name();
      case Lead => assert JobSeniorityLevels[4] == l.Name();
      case Director => assert JobSeniorityLevels[5] == l.Name();
      case VP => assert JobSeniorityLevels[6] == l.Name();
      case CLevel => assert JobSeniorityLevels[7] == l.Name();
      case Unknown => assert JobSeniorityLevels[8] == l.Name();
    }
  }

  /** No label is listed twice. */
  lemma SeniorityLevelsDistinct()
    ensures forall i, j | 0 <= i < j < |JobSeniorityLevels| :: JobSeniorityLevels[i] != JobSeniorityLevels[j]
  {
    SeniorityLevelsMatchLabels();
    forall i, j | 0 <= i < j < 9
      ensures JobSeniorityLevels[i] != JobSeniorityLevels[j]
    {
      SeniorityNamesDistinct(SeniorityLabels[i], SeniorityLabels[j]);
    }
  }

  const NameExceptions: seq<string> := [
    "McDonald", "MacDonald", "O'Brien", "O'Connor", "O'Reilly",
    "van", "von", "de", "del", "della", "di", "da", "le", "la"
  ]

  const CompanySuffixes: seq<string> := [
    "Inc", "Inc.", "Incorporated", "LLC", "L.L.C.", "Ltd", "Ltd.", "Limited", "Corp", "Corp.",
    "Corporation", "Co", "Co.", "Company", "LLP", "L.L.P.", "LP", "L.P.", "PLC", "P.L.C."
  ]

  /** `PREVIEW_CONFIG` */
  datatype PreviewConfig = PreviewConfig(maxRowsToShow: nat, topRows: nat, bottomRows: nat, randomSampleSize: nat)

  const Preview := PreviewConfig(100, 10, 10, 10)

  lemma PreviewFitsLimit()
    ensures Preview.topRows + Preview.bottomRows + Preview.randomSampleSize == 30 <= Preview.maxRowsToShow
  {
  }
}
