/** The referential-integrity passes of validateAppData (server-validation.ts), on documents whose shape was accepted. */
module Validation {
  import opened Text
  import opened Wrappers

  datatype Project = Project(id: string, deletedAt: Option<string>, purged: bool, archived: bool, areaId: string)

  datatype Section = Section(id: string, projectId: string, deletedAt: Option<string>, projectArchivedAt: Option<string>)

  /** Missing references are empty strings; `settled` is a finished or a reference task. */
  datatype Task = Task(id: string, deleted: bool, projectId: string, sectionId: string, areaId: string, settled: bool)

  datatype Area = Area(id: string, deleted: bool)

  datatype Document = Document(projects: seq<Project>, sections: Option<seq<Section>>, tasks: seq<Task>, areas: Option<seq<Area>>)

  // ---- what integrity means ----

  ghost predicate LiveProject(d: Document, id: string) {
    exists i :: 0 <= i < |d.projects| && d.projects[i].id == id && d.projects[i].deletedAt.None?
  }

  ghost predicate LiveSection(sections: seq<Section>, id: string) {
    exists i :: 0 <= i < |sections| && sections[i].id == id && sections[i].deletedAt.None?
  }

  ghost predicate LiveArea(d: Document, id: string) {
    d.areas.Some? && exists i :: 0 <= i < |d.areas.value| && d.areas.value[i].id == id && !d.areas.value[i].deleted
  }

  /** Map.set in a loop: the last of several with one id. */
  function SectionById(sections: seq<Section>, id: string): Option<Section> {
    if sections == [] then None
    else if sections[|sections| - 1].id == id then Some(sections[|sections| - 1])
    else SectionById(sections[..|sections| - 1], id)
  }

  function ProjectById(projects: seq<Project>, id: string): Option<Project> {
    if projects == [] then None
    else if projects[|projects| - 1].id == id then Some(projects[|projects| - 1])
    else ProjectById(projects[..|projects| - 1], id)
  }

  /** isTaskSectionProjectArchiveReference: the section went away with its project, which is still archived. */
  predicate ArchivedTogether(t: Task, section: Option<Section>, project: Option<Project>) {
    && section.Some? && project.Some?
    && project.value.deletedAt.None? && !project.value.purged && project.value.archived
    && section.value.projectArchivedAt.Some? && section.value.deletedAt == section.value.projectArchivedAt
    && t.projectId == project.value.id && section.value.projectId == project.value.id
    && t.settled
  }

  ghost predicate TaskInPlace(d: Document, t: Task) {
    t.deleted
    || (var project, section := Trim(t.projectId), Trim(t.sectionId);
        && (project != "" ==> LiveProject(d, project))
        && (section != "" ==>
              && project != "" && d.sections.Some?
              && SectionById(d.sections.value, section).Some?
              && SectionById(d.sections.value, section).value.projectId == project
              && (LiveSection(d.sections.value, section)
                  || ArchivedTogether(t, SectionById(d.sections.value, section), ProjectById(d.projects, project))))
        && (Trim(t.areaId) != "" ==> LiveArea(d, Trim(t.areaId))))
  }

  ghost predicate SectionInPlace(d: Document, s: Section) { s.deletedAt.None? ==> LiveProject(d, s.projectId) }

  ghost predicate ProjectInPlace(d: Document, p: Project) {
    p.deletedAt.None? && Trim(p.areaId) != "" ==> LiveArea(d, Trim(p.areaId))
  }

  /** Live sections, tasks and projects refer to live things, and sections to the project of their tasks. */
  ghost predicate ReferencesHold(d: Document) {
    && (d.sections.Some? ==> forall i :: 0 <= i < |d.sections.value| ==> SectionInPlace(d, d.sections.value[i]))
    && (forall i :: 0 <= i < |d.tasks| ==> TaskInPlace(d, d.tasks[i]))
    && (forall i :: 0 <= i < |d.projects| ==> ProjectInPlace(d, d.projects[i]))
  }

  // ---- the passes ----

  /** projectsById and activeProjectIds. */
  method IndexProjects(d: Document) returns (byId: map<string, Project>, active: set<string>)
    ensures forall id :: id in active <==> LiveProject(d, id)
    ensures forall id :: (if id in byId then Some(byId[id]) else None) == ProjectById(d.projects, id)
  {
    byId, active := map[], {};
    for i := 0 to |d.projects|
      invariant forall id :: id in active <==> exists k :: 0 <= k < i && d.projects[k].id == id && d.projects[k].deletedAt.None?
      invariant forall id :: (if id in byId then Some(byId[id]) else None) == ProjectById(d.projects[..i], id)
    {
      var p := d.projects[i];
      assert d.projects[..i + 1][..i] == d.projects[..i];
      byId := byId[p.id := p];
      if p.deletedAt.None? { active := active + {p.id}; }
    }
    assert d.projects[..|d.projects|] == d.projects;
  }

  /** sectionsById and activeSectionIds, and the check of live sections on the way. */
  method IndexSections(d: Document, sections: seq<Section>, activeProjects: set<string>)
    returns (ok: bool, byId: map<string, Section>, active: set<string>)
    requires forall id :: id in activeProjects <==> LiveProject(d, id)
    ensures ok <==> forall i :: 0 <= i < |sections| ==> SectionInPlace(d, sections[i])
    ensures ok ==> forall id :: id in active <==> LiveSection(sections, id)
    ensures ok ==> forall id :: (if id in byId then Some(byId[id]) else None) == SectionById(sections, id)
  {
    byId, active := map[], {};
    for i := 0 to |sections|
      invariant forall k :: 0 <= k < i ==> SectionInPlace(d, sections[k])
      invariant forall id :: id in active <==> exists k :: 0 <= k < i && sections[k].id == id && sections[k].deletedAt.None?
      invariant forall id :: (if id in byId then Some(byId[id]) else None) == SectionById(sections[..i], id)
    {
      var s := sections[i];
      assert sections[..i + 1][..i] == sections[..i];
      byId := byId[s.id := s];
      if s.deletedAt.None? {
        active := active + {s.id};
        if s.projectId !in activeProjects { return false, byId, active; }
      }
    }
    assert sections[..|sections|] == sections;
    ok := true;
  }

  /** What both loops over tasks check of the project and the section. */
  ghost predicate TaskFiled(d: Document, t: Task) { TaskInPlace(d, t.(areaId := "")) }

  method CheckTasksWithSections(d: Document, projects: map<string, Project>, activeProjects: set<string>,
                                sections: map<string, Section>, activeSections: set<string>) returns (ok: bool)
    requires d.sections.Some?
    requires forall id :: id in activeProjects <==> LiveProject(d, id)
    requires forall id :: (if id in projects then Some(projects[id]) else None) == ProjectById(d.projects, id)
    requires forall id :: id in activeSections <==> LiveSection(d.sections.value, id)
    requires forall id :: (if id in sections then Some(sections[id]) else None) == SectionById(d.sections.value, id)
    ensures ok <==> forall i :: 0 <= i < |d.tasks| ==> TaskFiled(d, d.tasks[i])
  {
    for i := 0 to |d.tasks|
      invariant forall k :: 0 <= k < i ==> TaskFiled(d, d.tasks[k])
    {
      var t := d.tasks[i];
      assert Trim("") == "";
      if t.deleted { continue; }
      var projectId, sectionId := Trim(t.projectId), Trim(t.sectionId);
      if projectId != "" && projectId !in activeProjects { return false; }
      if sectionId == "" { continue; }
      if projectId == "" { return false; }
      var section := if sectionId in sections then Some(sections[sectionId]) else None;
      var project := if projectId in projects then Some(projects[projectId]) else None;
      assert section == SectionById(d.sections.value, sectionId) && project == ProjectById(d.projects, projectId);
      assert ArchivedTogether(t, section, project) <==> ArchivedTogether(t.(areaId := ""), section, project);
      if sectionId !in activeSections && !ArchivedTogether(t, section, project) { return false; }
      var sectionProjectId := if section.Some? then section.value.projectId else "";
      if sectionProjectId != projectId { return false; }
    }
    ok := true;
  }

  method CheckTasksWithoutSections(d: Document, activeProjects: set<string>) returns (ok: bool)
    requires d.sections.None?
    requires forall id :: id in activeProjects <==> LiveProject(d, id)
    ensures ok <==> forall i :: 0 <= i < |d.tasks| ==> TaskFiled(d, d.tasks[i])
  {
    for i := 0 to |d.tasks|
      invariant forall k :: 0 <= k < i ==> TaskFiled(d, d.tasks[k])
    {
      var t := d.tasks[i];
      assert Trim("") == "";
      if t.deleted { continue; }
      if Trim(t.projectId) != "" && Trim(t.projectId) !in activeProjects { return false; }
      if Trim(t.sectionId) != "" { return false; }
    }
    ok := true;
  }

  /** activeAreaIds, then the areas of live projects and live tasks. */
  method CheckAreas(d: Document) returns (ok: bool)
    ensures ok <==> (forall i :: 0 <= i < |d.projects| ==> ProjectInPlace(d, d.projects[i]))
                    && forall i :: 0 <= i < |d.tasks| && !d.tasks[i].deleted && Trim(d.tasks[i].areaId) != "" ==> LiveArea(d, Trim(d.tasks[i].areaId))
  {
    var active: set<string> := {};
    if d.areas.Some? {
      for i := 0 to |d.areas.value|
        invariant forall id :: id in active <==> exists k :: 0 <= k < i && d.areas.value[k].id == id && !d.areas.value[k].deleted
      {
        if !d.areas.value[i].deleted { active := active + {d.areas.value[i].id}; }
      }
    }
    assert forall id :: id in active <==> LiveArea(d, id);
    for i := 0 to |d.projects|
      invariant forall k :: 0 <= k < i ==> ProjectInPlace(d, d.projects[k])
    {
      var p := d.projects[i];
      if p.deletedAt.None? && Trim(p.areaId) != "" && Trim(p.areaId) !in active { return false; }
    }
    for i := 0 to |d.tasks|
      invariant forall k :: 0 <= k < i && !d.tasks[k].deleted && Trim(d.tasks[k].areaId) != "" ==> LiveArea(d, Trim(d.tasks[k].areaId))
    {
      var t := d.tasks[i];
      if !t.deleted && Trim(t.areaId) != "" && Trim(t.areaId) !in active { return false; }
    }
    ok := true;
  }

  /** The passes accept exactly the documents whose references hold. */
  method ValidateReferences(d: Document) returns (ok: bool)
    ensures ok <==> ReferencesHold(d)
  {
    var projects, activeProjects := IndexProjects(d);
    TasksSplit(d);
    if d.sections.Some? {
      var good, sections, activeSections := IndexSections(d, d.sections.value, activeProjects);
      if !good { return false; }
      good := CheckTasksWithSections(d, projects, activeProjects, sections, activeSections);
      if !good { return false; }
    } else {
      var good := CheckTasksWithoutSections(d, activeProjects);
      if !good { return false; }
    }
    ok := CheckAreas(d);
  }

  lemma TasksSplit(d: Document)
    ensures forall i :: 0 <= i < |d.tasks| ==>
              (TaskInPlace(d, d.tasks[i]) <==>
               TaskFiled(d, d.tasks[i]) && (!d.tasks[i].deleted && Trim(d.tasks[i].areaId) != "" ==> LiveArea(d, Trim(d.tasks[i].areaId))))
  {
    forall i | 0 <= i < |d.tasks|
      ensures TaskInPlace(d, d.tasks[i]) <==>
              TaskFiled(d, d.tasks[i]) && (!d.tasks[i].deleted && Trim(d.tasks[i].areaId) != "" ==> LiveArea(d, Trim(d.tasks[i].areaId)))
    {
      var t := d.tasks[i];
      assert Trim("") == "";
      if d.sections.Some? {
        var section, project := SectionById(d.sections.value, Trim(t.sectionId)), ProjectById(d.projects, Trim(t.projectId));
        assert ArchivedTogether(t, section, project) <==> ArchivedTogether(t.(areaId := ""), section, project);
      }
    }
  }

  // ---- what follows from it ----

  lemma {:induction false} SectionByIdIsOne(sections: seq<Section>, id: string)
    requires SectionById(sections, id).Some?
    ensures exists i :: 0 <= i < |sections| && sections[i] == SectionById(sections, id).value && sections[i].id == id
  {
    var n := |sections| - 1;
    if sections[n].id != id {
      SectionByIdIsOne(sections[..n], id);
      var i :| 0 <= i < n && sections[..n][i] == SectionById(sections[..n], id).value && sections[..n][i].id == id;
      assert sections[i].id == id;
    }
  }

  ghost predicate DistinctIds(d: Document) {
    && (forall i, j :: 0 <= i < j < |d.projects| ==> d.projects[i].id != d.projects[j].id)
    && (d.sections.Some? ==> forall i, j :: 0 <= i < j < |d.sections.value| ==> d.sections.value[i].id != d.sections.value[j].id)
  }

  /**
   In an accepted document with distinct ids, a live entry filed under a section has exactly one such
   section, in its own live project, and that section is live or was archived together with the project.
   */
  lemma AcceptedTaskHasItsSection(d: Document, t: Task) returns (section: Section, project: Project)
    requires ReferencesHold(d) && DistinctIds(d) && t in d.tasks && !t.deleted && Trim(t.sectionId) != ""
    ensures d.sections.Some? && section in d.sections.value && section.id == Trim(t.sectionId)
    ensures project in d.projects && project.id == section.projectId == Trim(t.projectId) && project.deletedAt.None?
    ensures section.deletedAt.None? || (section.deletedAt == section.projectArchivedAt && project.archived && t.settled)
  {
    section := SectionById(d.sections.value, Trim(t.sectionId)).value;
    SectionByIdIsOne(d.sections.value, Trim(t.sectionId));
    var i :| 0 <= i < |d.projects| && d.projects[i].id == Trim(t.projectId) && d.projects[i].deletedAt.None?;
    project := d.projects[i];
    ProjectByIdIs(d.projects, i);
    if section.deletedAt.Some? {
      assert !LiveSection(d.sections.value, Trim(t.sectionId));
    }
  }

  lemma {:induction false} ProjectByIdIs(projects: seq<Project>, i: nat)
    requires i < |projects| && forall a, b :: 0 <= a < b < |projects| ==> projects[a].id != projects[b].id
    ensures ProjectById(projects, projects[i].id) == Some(projects[i])
    decreases |projects|
  {
    if i < |projects| - 1 {
      ProjectByIdIs(projects[..|projects| - 1], i);
    }
  }
}
