/** The Dockerfile generator, reduced to which template each project type
    receives and which port that template exposes; the template text itself
    is not modelled. */
module DockerfileGenerator {
  import opened DeploymentModel

  /** Whether the template table has an entry of its own for `t`. */
  predicate HasOwnTemplate(t: ProjectType) {
    t != Docker
  }

  /** `templates.get(project_type, templates[NODE])`: the project type whose
      template is emitted. */
  function TemplateFor(t: ProjectType): (k: ProjectType)
    ensures HasOwnTemplate(k)
    ensures HasOwnTemplate(t) ==> k == t
    ensures !HasOwnTemplate(t) ==> k == Node
  {
    if HasOwnTemplate(t) then t else Node
  }

  /** The port each template's EXPOSE line names. */
  function ExposedPort(k: ProjectType): (p: int)
    requires HasOwnTemplate(k)
  {
    match k
    case Django => 8000
    case React => 3000
    case Node => 3000
    case NextJs => 3000
    case Flask => 5000
    case FastApi => 8000
    case Static => 80
  }

  /** A project classified as Docker without a Dockerfile of its own (a
      compose file only) is built from exactly the Node template, and so
      listens where the Node template does. */
  lemma DockerFallsBackToNode()
    ensures TemplateFor(Docker) == TemplateFor(Node) == Node
    ensures ExposedPort(TemplateFor(Docker)) == 3000
  {
  }
}
