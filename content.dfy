/**
 * The read-only content tables of the site (index.tsx:33-316) and the two lookups the
 * detail pages make into them: the program catalog searched by id (index.tsx:623) and
 * the policy documents indexed by slug (index.tsx:749).
 */
module Content {
  import opened Wrappers

  /** One module of a program's curriculum (index.tsx:40). */
  datatype CourseModule = CourseModule(code: string, title: string, credits: nat)

  /** A program of study (index.tsx:33-42); its overview and outcome prose are not modelled. */
  datatype Program = Program(
    id: string,
    title: string,
    level: string,
    duration: string,
    delivery: string,
    modules: seq<CourseModule>)

  /** A member of the faculty and staff directory (index.tsx:44-51). */
  datatype StaffMember = StaffMember(
    id: string,
    name: string,
    role: string,
    department: string,
    credentials: string,
    email: string)

  /** A policy document; its body markup is presentation and is not modelled. */
  datatype Policy = Policy(title: string)

  /** The program catalog (index.tsx:55-90). */
  const ProgramCatalog: seq<Program> := [
    Program("conservation-bio", "Certificate in Conservation Biology", "Certificate / Vocational",
      "1 Academic Year", "Hybrid (Fieldwork & Virtual)",
      [CourseModule("BIO-101", "Principles of Ecology", 4),
       CourseModule("ZOO-105", "Vertebrate Zoology", 3),
       CourseModule("CONS-110", "Field Research Methods", 3)]),
    Program("marine-ecosystems", "Advanced Seminar: Marine Ecosystems", "Continuing Education",
      "16 Weeks", "Seminar / Lab",
      [CourseModule("MAR-201", "Coral Reef Dynamics", 2),
       CourseModule("RES-202", "Marine Data Analysis", 4)])
  ]

  /** The staff roster, in the order the source lists it (index.tsx:92-141). */
  const StaffRoster: seq<StaffMember> := [
      StaffMember("founder", "Dr. Yazan Mohammad Aref", "Founder & Website Manager", "Administration / Tech", "PhD in Zoology", "yazanaref@mawil.org"),
      StaffMember("ops-1", "Mohammad Nour Issa", "Admin Assistant", "Operations & Administration", "Staff", "mohammad@mawil.org"),
      StaffMember("ops-2", "Touleen Saidi", "Admin Assistant", "Operations & Administration", "Staff", "touleen@mawil.org"),
      StaffMember("ops-3", "Mareen Lamfon", "Volunteers Coordinator", "Operations & Administration", "Staff", "mareen@mawil.org"),
      StaffMember("comm-1", "Mohsen Alkhowildi", "WhatsApp Community Manager", "Community & Outreach", "Staff", "mohsen@mawil.org"),
      StaffMember("comm-2", "Alice Dawood Almohammed", "School Outreach Lead", "Community & Outreach", "Staff", "alice@mawil.org"),
      StaffMember("comm-3", "Layan Amin", "School Outreach Lead", "Community & Outreach", "Staff", "layan@mawil.org"),
      StaffMember("web-1", "Elaf Khalil", "Event Coordinator", "Webinars & Events", "Staff", "elaf@mawil.org"),
      StaffMember("web-2", "Zainab Mohamed Hazary", "Event Coordinator", "Webinars & Events", "Staff", "zainab@mawil.org"),
      StaffMember("web-3", "Hana Selim", "Webinar Host/Moderator", "Webinars & Events", "Staff", "hana@mawil.org"),
      StaffMember("web-4", "Haale Ayesha Khan", "Webinar Host/Moderator", "Webinars & Events", "Staff", "haale@mawil.org"),
      StaffMember("cont-1", "Sarah Algodairy", "Content Coordinator", "Content & Education", "Staff", "sarahalgodairy@mawil.org"),
      StaffMember("cont-2", "Aseel Hassan Alsuhabi", "Wildlife Research Lead", "Content & Education", "Researcher", "aseel@mawil.org"),
      StaffMember("cont-3", "Malak Hani", "Wildlife Research Lead", "Content & Education", "Researcher", "malak@mawil.org"),
      StaffMember("cont-4", "Fatimah Hejji", "Marine Life Research Lead", "Content & Education", "Researcher", "fatimah@mawil.org"),
      StaffMember("med-1", "Sarah Abdullah Arrfdy", "Graphic Designer", "Media & Creative", "Creative", "sarah@mawil.org"),
      StaffMember("med-2", "Aljoory Al Taha", "Graphic Designer", "Media & Creative", "Creative", "aljoory@mawil.org"),
      StaffMember("med-3", "Noor Talal Bokhamsin", "Digital Artist", "Media & Creative", "Creative", "noor@mawil.org"),
      StaffMember("med-4", "Najd Sami Alkhashan", "Digital Artist", "Media & Creative", "Creative", "najd@mawil.org"),
      StaffMember("med-5", "Mohammed Sameer Alqassimi", "Content Creator", "Media & Creative", "Creative", "mohammed@mawil.org"),
      StaffMember("med-6", "Jana Mohammed Al-Yami", "Assistant Content Creator", "Media & Creative", "Creative", "janaal-yami@mawil.org"),
      StaffMember("med-7", "Leen Hussam Rafik Haj Bakri", "Video Editor", "Media & Creative", "Creative", "leen@mawil.org"),
      StaffMember("soc-1", "Jana Mohamed Tameesh", "Social Media Manager", "Social Media & Comms", "Staff", "jana@mawil.org"),
      StaffMember("soc-2", "Lujain Al-anazi", "Social Media Assistant", "Social Media & Comms", "Staff", "lujain@mawil.org"),
      StaffMember("soc-3", "Raya Ali", "Social Media Assistant", "Social Media & Comms", "Staff", "raya@mawil.org"),
      StaffMember("soc-4", "Maha Khan", "Copywriter", "Social Media & Comms", "Staff", "maha@mawil.org"),
      StaffMember("tech-1", "AbdulHakim Khan", "Website Technician", "Website & Development", "Tech", "abdulhakim@mawil.org"),
      StaffMember("tech-2", "Omer Hijazi", "Website Technician & Game Designer", "Website & Development", "Tech", "omer@mawil.org"),
      StaffMember("part-1", "Tulay Ayman Al-Maghrabi", "Public Relations Manager", "Partnerships", "Manager", "tulay@mawil.org"),
      StaffMember("part-2", "Mazen Abdulaziz Alghamdi", "Outreach Lead", "Partnerships", "Lead", "mazen@mawil.org"),
      StaffMember("part-3", "Aleezay Arsalan", "Outreach Lead", "Partnerships", "Lead", "aleezay@mawil.org")

  ]

  /** The policy documents keyed by slug (index.tsx:143-316). */
  const PolicyContent: map<string, Policy> := map[
    "academic-integrity" := Policy("Academic Integrity Policy"),
    "assessment" := Policy("Assessment & Grading Policy"),
    "attendance" := Policy("Attendance & Participation"),
    "privacy" := Policy("Student Privacy & Data Protection"),
    "terms" := Policy("Terms of Use & Acceptable Use Policy"),
    "grievance" := Policy("Grievance & Appeals Procedures"),
    "nondiscrimination" := Policy("Non-Discrimination Policy")
  ]

  /** No two programs share an id, so a link by id names one program. */
  predicate UniqueIds(programs: seq<Program>)
  {
    forall i, j :: 0 <= i < j < |programs| ==> programs[i].id != programs[j].id
  }

  /**
   * `PROGRAMS.find(p => p.id === id)`: the first program with that id, or nothing when
   * no program has it.
   */
  function FindProgram(programs: seq<Program>, id: string): (found: Option<Program>)
    ensures found.None? <==> forall k :: 0 <= k < |programs| ==> programs[k].id != id
    ensures found.Some? ==>
      exists k :: 0 <= k < |programs| && programs[k] == found.value && found.value.id == id &&
        forall j :: 0 <= j < k ==> programs[j].id != id
  {
    if programs == [] then None
    else if programs[0].id == id then Some(programs[0])
    else
      var found := FindProgram(programs[1..], id);
      assert forall k :: 1 <= k < |programs| ==> programs[k] == programs[1..][k - 1];
      found
  }

  /** With unique ids, the program a link was built from is the one found by its id. */
  lemma FindListedProgram(programs: seq<Program>, k: nat)
    requires UniqueIds(programs)
    requires k < |programs|
    ensures FindProgram(programs, programs[k].id) == Some(programs[k])
  {
    var found := FindProgram(programs, programs[k].id);
    var m :| 0 <= m < |programs| && programs[m] == found.value && found.value.id == programs[k].id &&
      forall j :: 0 <= j < m ==> programs[j].id != programs[k].id;
    assert m == k;
  }

  /** The catalog's ids are distinct and contain no `/`, so each fits in one path segment. */
  lemma CatalogIdsWellFormed()
    ensures UniqueIds(ProgramCatalog)
    ensures forall k :: 0 <= k < |ProgramCatalog| ==> '/' !in ProgramCatalog[k].id
  {
  }

  /**
   * `POLICY_CONTENT[type]` read as the policy's own entry: the policy stored under that
   * slug, or nothing when the slug is not a key of the table.
   */
  function LookupPolicy(table: map<string, Policy>, slug: string): (found: Option<Policy>)
    ensures found.Some? <==> slug in table
    ensures found.Some? ==> found.value == table[slug]
  {
    if slug in table then Some(table[slug]) else None
  }

  /**
   * The names every plain JavaScript object inherits from `Object.prototype`; indexing
   * an object literal by one of them yields an inherited member, never `undefined`.
   */
  const ObjectPrototypeNames: set<string> := {
    "constructor", "hasOwnProperty", "isPrototypeOf", "propertyIsEnumerable",
    "toLocaleString", "toString", "valueOf", "__proto__",
    "__defineGetter__", "__defineSetter__", "__lookupGetter__", "__lookupSetter__"
  }

  /** What reading a property of an object literal yields in JavaScript. */
  datatype PropertyRead = OwnEntry(policy: Policy) | InheritedMember(name: string) | Undefined

  /** `POLICY_CONTENT[type]` as the code is written: own keys first, then the prototype chain. */
  function ReadPolicyProperty(table: map<string, Policy>, slug: string): PropertyRead
  {
    if slug in table then OwnEntry(table[slug])
    else if slug in ObjectPrototypeNames then InheritedMember(slug)
    else Undefined
  }

  /**
   * `if (!policy)` as written: only `undefined` takes the not-found branch, so an
   * inherited member passes the test although no policy is stored under its name.
   */
  function PassesNotFoundTestAsWritten(read: PropertyRead): bool
  {
    !read.Undefined?
  }

  /**
   * Counterexample for the as-written lookup: every prototype name that is not a slug
   * gets past the not-found test with no policy behind it (for example the slug
   * `constructor`, reached through the route `/policies/constructor`).
   */
  lemma PrototypeSlugsEscapeNotFound(slug: string)
    requires slug in ObjectPrototypeNames && slug !in PolicyContent
    ensures PassesNotFoundTestAsWritten(ReadPolicyProperty(PolicyContent, slug))
    ensures !ReadPolicyProperty(PolicyContent, slug).OwnEntry?
    ensures LookupPolicy(PolicyContent, slug) == None
  {
  }

  /**
   * The corrected own-key lookup agrees with the as-written read on every slug except
   * the inherited names: both find the same policy or both report a miss.
   */
  lemma LookupAgreesOffPrototype(table: map<string, Policy>, slug: string)
    requires slug !in ObjectPrototypeNames || slug in table
    ensures LookupPolicy(table, slug).Some? <==> PassesNotFoundTestAsWritten(ReadPolicyProperty(table, slug))
    ensures LookupPolicy(table, slug).Some? ==> ReadPolicyProperty(table, slug) == OwnEntry(LookupPolicy(table, slug).value)
  {
  }
}
