# DESS deployment and domain core in Dafny

DESS is a Django platform that deploys solutions from git repositories into Docker containers. It also manages the users who may open those solutions. This project models the platform's core as pure Dafny functions over immutable records and proves properties about them.

**The deployment service.** Each step is a function of a `Deployment` record and of oracle inputs, which stand for the outside world:
- the clone outcome for each branch tried;
- a `bindable(host, port)` predicate;
- the list of containers with their names and host ports;
- the outcomes of the six HTTP attempts;
- the container's status, log tail and uptime.

The steps modelled are project classification, the Dockerfile template table, the clone retries, the single no-cache build retry, the port scan with reclamation, the port and environment choices, health verification with its heuristic fallback, the status pipeline of `deploy_project`, stop and restart, and the decision rules of the detail and webhook views.

**The domain layer.**
- The solution, enhanced-solution and user entities, with their validation and state transitions.
- The entity, rule-based and API validators, the input sanitizer, and the pagination and error-status helpers.
- The database repositories and both assignment stores. Tables are sequences of rows in insertion order.
- The security predicates.
- The use cases, run over the repository interfaces.

Modules follow the source files:

| module | file |
|---|---|
| `DeploymentModel` | `deployment.dfy` |
| `ProjectDetector` | `project_detector.dfy` |
| `DockerfileGenerator` | `dockerfile_generator.dfy` |
| `CloneRepository` | `clone.dfy` |
| `ImageBuild` | `image_build.dfy` |
| `PortAllocator` | `port_allocator.dfy` |
| `ContainerDeploy` | `container_deploy.dfy` |
| `HealthCheck` | `health.dfy` |
| `Pipeline` | `pipeline.dfy` |
| `DeploymentViews` | `deployment_views.dfy` |
| `SolutionEntity` | `solution.dfy` |
| `EnhancedSolutionEntity` | `enhanced_solution.dfy` |
| `UserEntity` | `user.dfy` |
| `EntityValidators`, `InputSanitizer` | `validators.dfy`, `sanitizer.dfy` |
| `ValidationRules` | `rules.dfy` |
| `ApiValidators`, `WebUtils` | `web_validators.dfy`, `web_utils.dfy` |
| `SolutionRepository`, `UserRepository` | database repositories |
| `AssignmentRows`, `HardAssignmentStore` | assignment tables and the hard-delete store |
| `SoftAssignmentStore` | the soft-delete store |
| `SolutionStore`, `UserStore` | the repository interfaces |
| `SecurityValidator` | `security.dfy` |
| `UserUseCases`, `ProfileUseCases`, `SolutionUseCases`, `UserSolutionUseCases` | the use cases |

The supporting modules are:
- `Wrappers`: `Option` and `Result`;
- `Limits`: `ValidationConstants`;
- `Text`: Python's `strip`, `split`, `lower` and `replace`, and `int` on signed ASCII decimal literals;
- `Patterns`: recognisers for the regular expressions the code uses, including Python's `$`, which also matches before a final newline;
- `Tables`: filtering, counting and page slicing over sequences.

The use cases run over the hard-delete assignment store of the database repositories, because that is the store the application's dependency wiring registers. Solutions read through the repositories carry their status as an enumeration member. Over the database repository every solution read would first raise a `TypeError`, because `_django_solution_to_entity` passes an `access_url` keyword the entity does not declare; the enumeration-comparison findings below hold for any repository that does return `Solution` entities, as the interface promises.

## Model

| member | source | states |
|---|---|---|
| DeploymentModel.ProjectTypeValueRoundTrip | infrastructure/database/models_package/deployment.py:10-19 | every one of the eight project types is read back from its stored value, and distinct types have distinct values |
| DeploymentModel.NewDeployment | infrastructure/database/models_package/deployment.py:34-97 | a new deployment is PENDING on branch 'main', with no type, port or last-deploy time, empty URL, container, image and logs, Dockerfile path "Dockerfile", no environment variables and auto-deploy off |
| DeploymentModel.GetRepoName | infrastructure/database/models_package/deployment.py:108-112 | the name never holds a '/'; an empty URL gives the empty name, and a last segment without ".git" is the name unchanged |
| DeploymentModel.GetRepoNameAgrees | infrastructure/database/models_package/deployment.py:108-112 | for owner/name and owner/name.git with no ".git" inside the name, the name as written and the suffix-only name are both exactly the name |
| DeploymentModel.GetRepoNameMangles | infrastructure/database/models_package/deployment.py:111 | deleting every ".git" turns the GitHub Pages repository "user.github.io" into "userhub.io", while the suffix-only name keeps it |
| DeploymentModel.RepoNameSuffixOnly | infrastructure/database/models_package/deployment.py:108-112 | the corrected name: the last path segment, trailing slashes ignored, holds no '/' |
| DeploymentModel.RepoNameSuffixOnlyRecovers | infrastructure/database/models_package/deployment.py:108-116 | the corrected name recovers a repository name from its web URL and from its clone URL alike |
| DeploymentModel.GetCloneUrl | infrastructure/database/models_package/deployment.py:114-116 | the clone URL extends the stored URL by exactly ".git", even when the URL already ends in it |
| DeploymentModel.AddLog | infrastructure/database/models_package/deployment.py:118-124 | one "[timestamp] message\n" line is appended to the chosen log; the other logs and every other field are unchanged |
| DeploymentModel.AddLogsPreservesPrefix | infrastructure/database/models_package/deployment.py:118-124 | after any sequence of appends the earlier log is a prefix of the new one and its line count has grown by at least the number of appends |
| DeploymentModel.GetProjectConfig | infrastructure/database/models_package/deployment.py:126-158 | only Django and the Node family (React, Node, Next.js) have a configuration; its port is 8000 for Django and 3000 otherwise and its template is named after the type |
| DeploymentModel.ConfigPort | application/services/deployment_service.py:655-664 | `config.get('port', 8000)` is 3000 exactly for the Node family and 8000 for every other or missing type |
| DeploymentModel.NewWebhookEvent | infrastructure/database/models_package/deployment.py:186-194 | a new webhook event keeps its deployment, type and payload and is neither processed nor triggering |
| ProjectDetector.DetectProjectType | application/services/deployment_service.py:31-88 | the rules are tried in order: a Dockerfile or compose file gives DOCKER; otherwise manage.py together with requirements.txt gives DJANGO; otherwise a Next config gives NEXTJS; otherwise a readable package.json gives REACT exactly when it names react and NODE otherwise; otherwise app.py or a file name mentioning flask gives FLASK; otherwise a FastAPI name hint together with a Python file importing fastapi gives FASTAPI; otherwise index.html gives STATIC; each type is returned exactly when its rule is the first that applies |
| ProjectDetector.ScanPythonSources | application/services/deployment_service.py:70-80 | the scan over the listing reports a FastAPI source exactly when some Python file's text mentions fastapi, and stops at the first such file |
| ProjectDetector.DetectIgnoresListingOrder | application/services/deployment_service.py:34-35 | two listings holding the same set of names, with the same package.json and file texts, are classified alike |
| ProjectDetector.FlaskOutranksFastApi | application/services/deployment_service.py:65-80 | once the Docker, Django, Next and Node rules fail, a repository with app.py is FLASK whatever FastAPI hints it holds |
| ProjectDetector.UnreadablePackageFallsThrough | application/services/deployment_service.py:50-63 | a package.json that cannot be parsed is passed over: the repository is classified as if the file were absent |
| ProjectDetector.SameRulesSameType | application/services/deployment_service.py:31-88 | the classification depends only on which of the detection rules hold |
| ProjectDetector.AppendUninspectedName | application/services/deployment_service.py:31-88 | adding any file that is not one of the marker names, not a Python file, does not mention flask or fastapi and is not a readable package.json leaves the detected type unchanged |
| ProjectDetector.RemoveMembership | application/services/deployment_service.py:50-63 | removing package.json from a listing keeps every other name and only those |
| DockerfileGenerator.TemplateFor | application/services/deployment_service.py:95-291 | every type with a template of its own gets that template; any other type gets the Node template |
| DockerfileGenerator.DockerFallsBackToNode | application/services/deployment_service.py:174-189 | a DOCKER repository without its own template gets the Node template, which exposes port 3000 |
| CloneRepository.BranchToUse | application/services/deployment_service.py:508 | the branch tried first is the deployment's branch, or 'main' when it is empty |
| CloneRepository.AlternateBranch | application/services/deployment_service.py:522 | the second branch is 'master' exactly when the first was 'main', and always differs from the first |
| CloneRepository.JoinPath | application/services/deployment_service.py:497-498 | the clone target is the temporary directory followed by the repository name |
| CloneRepository.CloneRepo | application/services/deployment_service.py:494-550 | at most three clones are attempted, on the chosen branch, the alternate branch and the default branch in that order; the clone fails exactly when all three fail, and a success returns the path under the temporary directory named after the repository |
| CloneRepository.CloneStopsAtFirstSuccess | application/services/deployment_service.py:520-547 | a later attempt is made only after the earlier ones failed, and a final failure reports the three branches and the three error outputs |
| CloneRepository.CloneErrorMentionsEveryAttempt | application/services/deployment_service.py:546 | the error message quotes each attempt's error output |
| CloneRepository.MasterTriesMainSecond | application/services/deployment_service.py:508-532 | a deployment on 'master' whose clone fails retries on 'main' |
| ImageBuild.ImageName | application/services/deployment_service.py:555 | the image is named after the deployment, with the prefix "dess-deploy-" |
| ImageBuild.BuildImage | application/services/deployment_service.py:552-646 | the image name is recorded before anything else; without a daemon no build is made; a build runs with the cache and is retried once without it exactly when it fails with a cache or snapshot message; the step succeeds exactly when the last build made succeeded, then returns the image name and stores that build's stripped stream lines joined by newlines; no other field of the record changes |
| ImageBuild.NonCacheBuildErrorPropagates | application/services/deployment_service.py:584-638 | a build failure that is not about the cache is not retried and is reported as "Error construyendo imagen" with the daemon's message |
| ImageBuild.StreamLinesKeepsStreams | application/services/deployment_service.py:599-605 | the stored log lines are the stripped texts of exactly the entries that carry a stream, in order |
| ImageBuild.StripEach | application/services/deployment_service.py:603 | each line is stripped on its own and no line is added or lost |
| PortAllocator.ScanBindings | application/services/deployment_service.py:880-893 | the port is free exactly when no binding of any listed container names it; otherwise the verdict is that of the first container that holds it |
| PortAllocator.CheckPortInDocker | application/services/deployment_service.py:876-896 | a failed container listing counts the port as taken |
| PortAllocator.LeastUsableFrom | application/services/deployment_service.py:858-874 | the reference search: the least port at or above the start and below 8200 that both hosts can bind and Docker leaves free, or the "no ports" error exactly when there is none |
| PortAllocator.GetAvailablePort | application/services/deployment_service.py:850-874 | the port returned lies in [8100, 8200), is usable, and no smaller port in the range is; the error is raised exactly when no port in the range is usable |
| PortAllocator.GetAvailablePortIsLeast | application/services/deployment_service.py:850-874 | any result meeting the allocation loop's contract is the reference search's result |
| PortAllocator.ForeignHolderBlocksPort | application/services/deployment_service.py:885-892 | a port held by a container not named "dess-container-…" is never handed out |
| PortAllocator.StaleServiceContainerIsReclaimed | application/services/deployment_service.py:885-891 | a port held by one of the service's own containers is reclaimed by stopping and removing that container |
| ContainerDeploy.CleanupTargets | application/services/deployment_service.py:898-926 | the clean-up removes the recorded container when there is one, and then the container carrying the deployment's service name |
| ContainerDeploy.ContainerName | application/services/deployment_service.py:914 | the container name is "dess-container-" followed by the deployment id |
| ContainerDeploy.InternalPortAsWritten | application/services/deployment_service.py:657-664 | the container port is 3000 for Node, React and Next, 5000 for Flask, and otherwise the record's port when set and non-zero, else the type's configured port |
| ContainerDeploy.RedeployMovesInternalPort | application/services/deployment_service.py:664-670 | a Django project listens on 8000 on a first deploy, but a redeploy maps the container port to the previous deploy's host port instead |
| ContainerDeploy.InternalPortMatchesTemplate | application/services/deployment_service.py:657-664 | on a first deploy the container port is the generated Dockerfile's exposed port for every type except STATIC (80 exposed, 8000 mapped) and DOCKER (3000 exposed, 8000 mapped) |
| ContainerDeploy.ConfiguredKeys | application/services/deployment_service.py:684-697 | the variables set per type: PORT and NODE_ENV for the Node family, the three Django settings, the three Flask settings, PORT and HOST for FastAPI, none otherwise |
| ContainerDeploy.ConfigureEnv | application/services/deployment_service.py:680-697 | the environment keeps every user variable the type does not set, adds exactly the type's keys, sets PORT to the container port, and keeps a user-given DJANGO_SETTINGS_MODULE or FLASK_APP over the defaults "settings" and "app.py" |
| ContainerDeploy.DeployContainer | application/services/deployment_service.py:648-726 | the clean-up always runs first; without a free port the step fails with the record unchanged; otherwise the record gets the least usable port and its localhost URL, the container runs only when the daemon answers, with the configured environment and the container port mapped to the host port; no other field changes |
| ContainerDeploy.RunOnPort | application/services/deployment_service.py:699-713 | the run call gets the image, the mapping of the container port to the host port, the configured environment and the service name, and its container id is recorded on success |
| ContainerDeploy.UserVariablesSurvive | application/services/deployment_service.py:681-697 | a user variable that the type does not overwrite keeps its value |
| HealthCheck.WaitBefore | application/services/deployment_service.py:740 | every probe waits at least five seconds first |
| HealthCheck.TotalWaitClosedForm | application/services/deployment_service.py:735-744 | the waits 5, 7, 9, … before the first n probes add up to n·(n+4) seconds, 60 for the six probes |
| HealthCheck.HealthIndicators | application/services/deployment_service.py:943-991 | every project type, and an unknown one, has at least three start-up phrases to look for |
| HealthCheck.DjangoIndicators | application/services/deployment_service.py:953-959 | four phrases for Django |
| HealthCheck.FlaskIndicators | application/services/deployment_service.py:960-966 | four phrases for Flask |
| HealthCheck.FastApiIndicators | application/services/deployment_service.py:967-973 | four phrases for FastAPI |
| HealthCheck.StaticIndicators | application/services/deployment_service.py:974-979 | three phrases for a static site |
| HealthCheck.NodeIndicators | application/services/deployment_service.py:945-952 | five phrases for the Node family |
| HealthCheck.FallbackIndicators | application/services/deployment_service.py:980-991 | eight phrases for any other type |
| HealthCheck.FirstOk | application/services/deployment_service.py:737-757 | the index of the first of the six probes that answers 200, or none exactly when no probe does |
| HealthCheck.VerifyDeployment | application/services/deployment_service.py:728-772 | without a URL the check fails at once; otherwise it stops at the first 200 and succeeds; when no probe answers 200 all six are made, the container fallback is consulted exactly when the sixth probe could not connect, and the check then succeeds exactly when the container looks healthy; the time waited is the sum of the waits of the probes made |
| HealthCheck.FirstOkIsFirst | application/services/deployment_service.py:737-750 | a probe that answers 200 after only failures is the one the check stops at |
| HealthCheck.FallbackOnlyForUnreachableServer | application/services/deployment_service.py:751-769 | a server that answers the last probe with an error code never gets the container fallback |
| HealthCheck.QuietContainerJudgedByUptime | application/services/deployment_service.py:928-1017 | a running container whose log shows none of its type's phrases is healthy exactly when it has been up more than 30 seconds, and unhealthy when the uptime is unknown or the probe fails |
| Pipeline.SolutionTypeFor | application/services/deployment_service.py:1070-1082 | a FastAPI project is published as 'api' and every other project, typed or not, as 'web_app' |
| Pipeline.FindByName | application/services/deployment_service.py:1038-1040 | the first published solution with the deployment's name, or none exactly when no solution has it |
| Pipeline.PublishSolution | application/services/deployment_service.py:1031-1068 | after publishing, a solution with the deployment's name exists, is 'active', carries the deployment's URL, repository, mapped type and version "1.0.0"; an existing one keeps its description and position and a new one is appended with the default description; every other solution is unchanged |
| Pipeline.FindByNameAt | application/services/deployment_service.py:1038-1040 | a name first held at position i is found at i |
| Pipeline.PublishIdempotent | application/services/deployment_service.py:1031-1068 | publishing the same deployment twice leaves the catalogue as publishing it once |
| Pipeline.MarkInactive | application/services/deployment_service.py:1084-1099 | marking a published solution inactive clears its access URL and changes nothing else; an unknown name changes nothing |
| Pipeline.BuildAndStart | application/services/deployment_service.py:457-487 | after the analysis: a failed build stops the run at BUILDING; otherwise the container start and the health check decide; success means RUNNING with the deploy time set and the solution published, failure means FAILED with the catalogue and deploy time untouched |
| Pipeline.StartAndVerify | application/services/deployment_service.py:462-487 | the run succeeds only when the container started, and then the deployment is RUNNING and published |
| Pipeline.Prepare | application/services/deployment_service.py:415-492 | without Docker the deployment fails before any stage; a failed clone fails it after CLONING; after a clone the checkout is always removed, the detected type is recorded, and a Dockerfile is generated from the type's template exactly when the checkout has none; the run goes on exactly when that file could be written |
| Pipeline.DeployProject | application/services/deployment_service.py:415-492 | the deployment passes through CLONING, ANALYZING, BUILDING and DEPLOYING in order and ends RUNNING or FAILED; it succeeds exactly when it ends RUNNING, after every stage, with the deploy time set and the solution published; on failure the catalogue and the deploy time are untouched |
| Pipeline.ComposeOnlyRepositoryUsesNodeTemplate | application/services/deployment_service.py:441-450 | a checkout with a compose file but no Dockerfile is typed DOCKER and gets the Node Dockerfile |
| Pipeline.StopDeployment | application/services/deployment_service.py:1105-1136 | a deployment without a container stops trivially; a daemon error leaves everything as it was and reports failure; otherwise it is STOPPED, its solution is marked inactive, and the container id is cleared only when the container was actually removed |
| Pipeline.RestartDeployment | application/services/deployment_service.py:1138-1153 | a restart never succeeds without a container, and with one succeeds exactly when the daemon restarts it |
| Pipeline.StopThenRestartRefused | application/services/deployment_service.py:1105-1153 | after a stop that removed the container, a restart is refused and the published solution is inactive without a URL |
| Pipeline.PublishThenStop | application/services/deployment_service.py:1031-1136 | publishing then stopping a deployment leaves its solution inactive but still pointing at the repository |
| DeploymentViews.DetailFlags | infrastructure/web/views/deployment_views.py:84-90 | start is offered exactly for STOPPED and FAILED deployments, stop and restart exactly for RUNNING ones |
| DeploymentViews.FlagsExclusive | infrastructure/web/views/deployment_views.py:87-89 | start and stop are never offered together, and some action is offered exactly for RUNNING, STOPPED and FAILED |
| DeploymentViews.EventType | infrastructure/web/views/deployment_views.py:323 | the event type is the X-GitHub-Event header, or "unknown" without it |
| DeploymentViews.TargetRef | infrastructure/web/views/deployment_views.py:335 | the watched ref is "refs/heads/" followed by the branch |
| DeploymentViews.HandleWebhook | infrastructure/web/views/deployment_views.py:311-370 | an unknown deployment gives 404 and one without auto-deploy 400, both recording nothing; a body that is not JSON, or is the JSON `null` that the non-null payload column refuses, gives 500 with nothing recorded; otherwise the event is recorded with its type and payload, a redeploy is started exactly for a push to the watched ref, and the event is marked processed exactly when the reply is 200; a push whose JSON payload is not an object is recorded but answered 500 |
| DeploymentViews.OtherBranchIsOnlyRecorded | infrastructure/web/views/deployment_views.py:332-366 | a push to another branch is recorded and processed without a redeploy |
| DeploymentViews.DisabledIgnoresEverything | infrastructure/web/views/deployment_views.py:318-319 | without auto-deploy every request gets the same reply and nothing is recorded |
| SolutionEntity.TypeFromValue | core/entities/solution.py:23-33 | a text is read as a solution type only when it is that type's value |
| SolutionEntity.TypeValueRoundTrip | core/entities/solution.py:23-33 | every one of the nine solution types is read back from its value |
| SolutionEntity.TypeValueInjective | core/entities/solution.py:23-33 | distinct solution types have distinct values |
| SolutionEntity.StatusValueInjective | core/entities/solution.py:12-20 | distinct statuses have distinct values |
| SolutionEntity.NameProblem | core/entities/solution.py:84-94 | a name is accepted exactly when its stripped form has at least the minimum length, it is within the maximum length and it holds only letters, digits, whitespace, '-', '_' and '.' |
| SolutionEntity.DescriptionProblem | core/entities/solution.py:96-102 | a description is accepted exactly when its stripped form has at least the minimum length and it is within the maximum length |
| SolutionEntity.UrlProblem | core/entities/solution.py:104-112 | a repository URL is accepted exactly when it is http or https followed by something with a dot |
| SolutionEntity.VersionProblem | core/entities/solution.py:114-122 | a version is accepted exactly when it is three dot-separated digit runs, optionally followed by '-' and a pre-release tag |
| SolutionEntity.ValidateFields | core/entities/solution.py:76-127 | the fields are checked in the order name, description, URL, version, type; there is no problem exactly when all pass, and a type that is not a member is reported only when the four others pass |
| SolutionEntity.Validate | core/entities/solution.py:76-82 | a solution is valid exactly when its four text fields pass |
| SolutionEntity.NewSolution | core/entities/solution.py:36-74 | a solution is built exactly when its fields are valid, with the given status, name and version and empty variable and configuration maps |
| SolutionEntity.ActivateSolution | core/entities/solution.py:151-157 | activation succeeds exactly from INACTIVE, gives ACTIVE and changes nothing else; otherwise it reports the state |
| SolutionEntity.DeactivateSolution | core/entities/solution.py:159-165 | deactivation succeeds exactly for an ACTIVE or DEPLOYED solution and gives INACTIVE |
| SolutionEntity.SetMaintenanceMode | core/entities/solution.py:167-173 | maintenance is entered exactly from ACTIVE or DEPLOYED |
| SolutionEntity.DeploySolution | core/entities/solution.py:175-189 | a deploy succeeds exactly from ACTIVE or PENDING and gives DEPLOYED; a non-empty access URL and version are recorded in the deployment configuration, an empty one leaves the entry, present or absent, as it was, every other entry is kept, no other entry appears, and nothing but the status and the configuration changes |
| SolutionEntity.SetDeploymentFailed | core/entities/solution.py:191-194 | marking the deploy failed always gives FAILED |
| SolutionEntity.ArchiveSolution | core/entities/solution.py:196-202 | archiving succeeds exactly when the solution is not DEPLOYED |
| SolutionEntity.RunFollowsTable | core/entities/solution.py:151-202 | each status command succeeds exactly when its transition table allows the current status and then sets the command's target status only |
| SolutionEntity.ActivateDeactivateRoundTrip | core/entities/solution.py:151-165 | activating an inactive solution and deactivating it again gives back the same solution |
| SolutionEntity.DeployedMustLeaveBeforeArchive | core/entities/solution.py:175-202 | a deployed solution can be neither archived, activated nor redeployed, but it can be archived once deactivated |
| SolutionEntity.CommandsKeepValidity | core/entities/solution.py:151-202 | no status command can make a valid solution invalid |
| SolutionEntity.AddEnvironmentVariable | core/entities/solution.py:205-211 | a variable is set exactly when its key is not empty, and nothing but that variable changes |
| SolutionEntity.RemoveEnvironmentVariable | core/entities/solution.py:213-217 | the variables afterwards are exactly the old ones without the key, with their values, nothing else about the solution changes, and removing an absent key changes nothing |
| SolutionEntity.AddRemoveRoundTrip | core/entities/solution.py:205-217 | adding a new variable and removing it gives back the same solution |
| SolutionEntity.UpdateDeploymentConfig | core/entities/solution.py:219-225 | the update's entries win, every entry it does not name is kept as it was, and nothing but the configuration changes |
| EnhancedSolutionEntity.Problems | core/entities/enhanced_solution.py:94-114 | every failing check is reported, none that passes, in the order name, description, repository URL, version, access URL |
| EnhancedSolutionEntity.NewEnhancedSolution | core/entities/enhanced_solution.py:55-114 | a new solution is built exactly when the stripped name has at least 3 characters, the stripped description at least 10, the URL and version match and the access URL is absent, empty or valid; it then keeps every input and is PENDING, MEDIUM, with no tags, dependencies or variables; a refusal names exactly the failing checks, in order |
| EnhancedSolutionEntity.ProblemsOneByOne | core/entities/enhanced_solution.py:94-111 | each of the five problems is listed exactly when its own check fails |
| EnhancedSolutionEntity.ScheduleMaintenance | core/entities/enhanced_solution.py:274-283 | a window is set exactly when it starts in the future and before it ends; a start not before the end is the error reported first; nothing but the window changes |
| EnhancedSolutionEntity.ClearMaintenanceWindow | core/entities/enhanced_solution.py:285-288 | after clearing, no moment lies in a maintenance window and nothing else changed |
| EnhancedSolutionEntity.ScheduledWindowBlocksAccess | core/entities/enhanced_solution.py:148-162 | a scheduled window covers exactly the moments from its start to its end inclusive, not the moment it was scheduled; during it an otherwise accessible solution is not accessible, and clearing it restores access |
| EnhancedSolutionEntity.CanBeDeleted | core/entities/enhanced_solution.py:190-198 | deletion is allowed exactly when the solution is neither ACTIVE with daily users nor DEPLOYED, and a refusal carries its reason |
| EnhancedSolutionEntity.UpdateMetrics | core/entities/enhanced_solution.py:254-272 | each given metric is stored clamped at zero, each absent one is kept, and nothing else changes |
| EnhancedSolutionEntity.NoUsersAllowsDeletion | core/entities/enhanced_solution.py:190-198 | an active solution whose daily users are set to zero or less can be deleted |
| EnhancedSolutionEntity.Bump | core/entities/enhanced_solution.py:208-216 | "major" increments the major number and zeroes the others, "minor" increments the minor number and zeroes the patch, anything else increments the patch |
| EnhancedSolutionEntity.CoreNumbers | core/entities/enhanced_solution.py:131-138 | the three numbers read from a version's x.y.z core are never negative |
| EnhancedSolutionEntity.SemverHasCore | core/entities/enhanced_solution.py:131-138 | every version the semantic-version check accepts has an x.y.z core |
| EnhancedSolutionEntity.IncrementVersionAsWritten | core/entities/enhanced_solution.py:200-219 | the bump as written: a version the check rejects gives "1.0.0", and only an accepted version can make it fail |
| EnhancedSolutionEntity.IncrementAgreesOnPlainVersions | core/entities/enhanced_solution.py:200-219 | on a plain x.y.z version the bump as written and the corrected bump give the same text |
| EnhancedSolutionEntity.AsWrittenOnNumbers | core/entities/enhanced_solution.py:205-219 | a version that splits into three digit pieces is bumped from those numbers |
| EnhancedSolutionEntity.AsWrittenFailsOnThirdPart | core/entities/enhanced_solution.py:205-206 | an accepted version whose third piece is not an integer makes the bump as written fail |
| EnhancedSolutionEntity.IncrementAsWrittenRejectsPreRelease | core/entities/enhanced_solution.py:205-206 | x.y.z-tag passes the version check, yet the bump as written fails on it, while the corrected bump gives the bumped x.y.z |
| EnhancedSolutionEntity.IncrementVersionReadsBack | core/entities/enhanced_solution.py:200-219 | the corrected bump always yields a plain version that both version checks accept; an invalid version gives "1.0.0", and a valid one gives its core numbers bumped |
| EnhancedSolutionEntity.IncrementIsNewer | core/entities/enhanced_solution.py:200-219 | the bumped version is strictly newer than the old one |
| EnhancedSolutionEntity.AddTagAsWritten | core/entities/enhanced_solution.py:221-224 | the tag as written: an empty tag or one already present changes nothing; otherwise the stripped, lower-cased tag is appended |
| EnhancedSolutionEntity.AddTagAsWrittenDuplicates | core/entities/enhanced_solution.py:223-224 | adding a tag that is not already normalised twice stores its normalised form twice |
| EnhancedSolutionEntity.AddTag | core/entities/enhanced_solution.py:221-224 | the corrected tag: the normalised form of a non-empty tag is present afterwards, no other tag is added or lost, and tags stay free of duplicates |
| EnhancedSolutionEntity.AddTagIdempotent | core/entities/enhanced_solution.py:221-224 | adding the same tag twice is adding it once |
| EnhancedSolutionEntity.RemoveTag | core/entities/enhanced_solution.py:226-231 | the result reports whether the tag was present, and its first occurrence is removed |
| EnhancedSolutionEntity.RemoveFirst | core/entities/enhanced_solution.py:228-229 | removing an element takes away exactly one occurrence when there is one, and otherwise changes nothing |
| EnhancedSolutionEntity.RemoveFromUnique | core/entities/enhanced_solution.py:226-231 | in a list without duplicates the removed element is gone and no duplicate appears |
| EnhancedSolutionEntity.AddDependency | core/entities/enhanced_solution.py:242-245 | a non-empty dependency not yet listed is appended, anything else changes nothing, and the list stays free of duplicates |
| EnhancedSolutionEntity.RemoveDependency | core/entities/enhanced_solution.py:247-252 | the result reports whether the dependency was listed, and its first occurrence is removed |
| EnhancedSolutionEntity.AddRemoveDependency | core/entities/enhanced_solution.py:242-252 | adding a new dependency and removing it restores the list and reports success |
| EnhancedSolutionEntity.SetEnvironmentVariable | core/entities/enhanced_solution.py:233-236 | a variable is set only when both key and value are non-empty, no other key appears or disappears, and nothing else changes |
| EnhancedSolutionEntity.GetEnvironmentVariable | core/entities/enhanced_solution.py:238-240 | a set variable's value, or the default when the key is absent |
| EnhancedSolutionEntity.SetThenGet | core/entities/enhanced_solution.py:233-240 | a variable set with a non-empty key and value reads back, and every other key reads as before |
| UserEntity.UsernameProblem | core/entities/user.py:49-62 | a username is accepted exactly when it is non-empty, within the length bounds and of the allowed characters; an empty one is reported as missing |
| UserEntity.UsernameCheckAsWritten | core/entities/user.py:49-62 | as written no username is accepted: one within the length bounds reaches the undefined pattern constant, and a shorter, longer or empty one gets the problem the intended check reports |
| UserEntity.UsernameAsWrittenRefusesValid | core/entities/user.py:60-62 | every username the intended check accepts reaches the undefined pattern constant as written |
| UserEntity.EmailProblem | core/entities/user.py:64-71 | an email is accepted exactly when it has the e-mail form; an empty one is reported as missing |
| UserEntity.FullNameProblem | core/entities/user.py:73-82 | a full name is accepted exactly when it is non-empty and its stripped length is within the bounds; an empty one is reported as missing |
| UserEntity.PasswordProblem | core/entities/user.py:84-92 | no password is accepted; a given one is accepted exactly when it is long enough, and an empty one is reported as missing |
| UserEntity.Validate | core/entities/user.py:41-47 | a user is valid exactly when every field passes, and the first failing field in the order username, email, full name, password is the one reported |
| UserEntity.ValidateForCreation | core/entities/user.py:99-102 | creation additionally needs a password, whose absence is reported |
| UserEntity.NewUser | core/entities/user.py:20-39 | a user is built exactly when the fields are valid, and is then active with the given username and role |
| UserEntity.ManagersCanAccess | core/entities/user.py:183-199 | managing users and managing solutions go together, a manager can access every solution, and every user is exactly one of super admin and regular user |
| UserEntity.Activate | core/entities/user.py:115-118 | activation sets the active flag and nothing else |
| UserEntity.Deactivate | core/entities/user.py:120-123 | deactivation clears the active flag and nothing else |
| UserEntity.ActivationRoundTrip | core/entities/user.py:115-123 | deactivating and reactivating an active user gives it back, and neither changes validity |
| UserEntity.ChangePassword | core/entities/user.py:131-141 | the password changes exactly when the new one is long enough; otherwise the user is left as it was and the problem is reported |
| UserEntity.ChangePasswordVerifies | core/entities/user.py:125-141 | after a change the new password verifies, every other one fails, and a valid user stays valid |
| UserEntity.ChangeRole | core/entities/user.py:143-158 | the role changes exactly for "super_admin" and "user", to the named role and nothing else; any other text is refused |
| UserEntity.ChangeRoleRoundTrip | core/entities/user.py:143-158 | changing to a role by its value sets exactly that role |
| UserEntity.UpdateProfile | core/entities/user.py:160-181 | a given full name is stored only when valid; a given email is stored only when valid and the full name did not fail first; the call reports a problem exactly when a given field is invalid; nothing else changes |
| UserEntity.UpdateEmail | core/entities/user.py:171-178 | a given email is stored exactly when valid |
| UserEntity.UpdateProfileKeepsValidity | core/entities/user.py:160-181 | a profile update can never make a valid user invalid |
| UserEntity.HashKeyOf | core/entities/user.py:217-221 | users with an id hash by id, the others by username |
| UserEntity.SameUserAsWrittenBreaksHash | core/entities/user.py:205-221 | the equality as written holds between a user with an id and one without that share a username, though their hash keys differ, and it is not transitive |
| UserEntity.SameUserAgrees | core/entities/user.py:205-215 | the corrected equality agrees with the one as written whenever both users have an id or neither has |
| UserEntity.SameUserIsConsistent | core/entities/user.py:205-221 | the corrected equality is reflexive, symmetric and transitive, and equal users have equal hash keys |
| EntityValidators.ErrorsForConcat | infrastructure/validation/validators.py:21-25 | a field's messages from two batches of errors are the first batch's followed by the second's |
| EntityValidators.AddError | infrastructure/validation/validators.py:21-25 | adding an error appends the message to its field's list and leaves every other field's list as it was |
| EntityValidators.ClearErrors | infrastructure/validation/validators.py:35-37 | after clearing, the validator is valid |
| EntityValidators.AddThenClear | infrastructure/validation/validators.py:21-37 | a validator with an added error is invalid, clearing makes it valid again, and a validator is valid exactly when no field has a message |
| EntityValidators.UsernameErrors | infrastructure/validation/validators.py:80-100 | an empty username is only reported missing; otherwise, on the stripped username, too short (under 3), too long (over 30), bad characters and reserved word are each reported exactly when they apply, and nothing else is |
| EntityValidators.DomainOf | infrastructure/validation/validators.py:118 | the domain never holds an '@' and is empty for an address without one |
| EntityValidators.DomainOfParts | infrastructure/validation/validators.py:117-118 | the domain is the text between the first '@' and the next one (or the end), so "a@b@tempmail.com" has domain "b" |
| EntityValidators.EmailErrors | infrastructure/validation/validators.py:102-120 | an empty email is only reported missing; otherwise, on the stripped lower-cased email, bad format, too long (over 254) and blocked domain are each reported exactly when they apply, and nothing else is |
| EntityValidators.FullNameErrors | infrastructure/validation/validators.py:122-142 | an empty full name is only reported missing; otherwise, on the stripped name, too short (under 2), too long (over 100), a run of digits and a missing surname are each reported exactly when they apply, and nothing else is |
| EntityValidators.MissingCriteria | infrastructure/validation/validators.py:144-169 | the number of missing character classes among upper case, lower case, digit and special is at most four, and zero exactly when all four are present |
| EntityValidators.PasswordErrors | infrastructure/validation/validators.py:144-173 | an empty password is only reported missing; otherwise too short (under 8), too long (over 128), weak (more than one class missing) and common are each reported exactly when they apply, and nothing else is |
| EntityValidators.RoleErrors | infrastructure/validation/validators.py:175-185 | a role is accepted exactly when it is "user" or "super_admin", and an empty one is reported missing |
| EntityValidators.ValidateCreateUser | infrastructure/validation/validators.py:53-64 | the result is the validator's validity, which holds exactly when all five fields pass |
| EntityValidators.CreateUserFieldErrors | infrastructure/validation/validators.py:53-64 | after creation validation each field holds exactly its own check's messages, from a cleared validator |
| EntityValidators.ValidateUpdateUser | infrastructure/validation/validators.py:66-78 | update validation passes exactly when username, email and full name pass and the role, when given and not empty, passes |
| EntityValidators.CreateImpliesUpdate | infrastructure/validation/validators.py:53-78 | data that passes creation validation passes update validation, with or without the role |
| EntityValidators.SolutionNameErrors | infrastructure/validation/validators.py:208-224 | an empty name is only reported missing; otherwise, on the stripped name, too short (under 3), too long (over 100) and bad characters are each reported exactly when they apply, and nothing else is |
| EntityValidators.DescriptionErrors | infrastructure/validation/validators.py:226-238 | a description passes exactly when it is non-empty and its stripped length is between 10 and 1000 |
| EntityValidators.SplitScheme | infrastructure/validation/validators.py:247 | when no scheme is found the whole URL is left as the remainder |
| EntityValidators.Netloc | infrastructure/validation/validators.py:247-249 | the network location holds none of the characters that end it |
| EntityValidators.UrlErrors | infrastructure/validation/validators.py:246-262 | after dropping leading control characters and spaces and every tab and newline, a URL whose network location has unbalanced brackets is unparsable, and otherwise it passes exactly when its scheme is http or https and its network location is not empty; at most one message |
| EntityValidators.UrlErrorsIgnoresLeadingControls | infrastructure/validation/validators.py:246-247 | leading control characters and spaces never change the verdict |
| EntityValidators.UrlWithHost | infrastructure/validation/validators.py:246-262 | scheme://host/path passes exactly when the scheme, lower-cased, is http or https and the host is non-empty with balanced brackets; unbalanced brackets are reported unparsable |
| EntityValidators.RepositoryUrlErrors | infrastructure/validation/validators.py:240-262 | an empty repository URL is reported missing; any other gets exactly the URL verdict |
| EntityValidators.SolutionTypeErrors | infrastructure/validation/validators.py:264-276 | a solution type passes exactly when it is the value of one of the nine solution types |
| EntityValidators.VersionErrors | infrastructure/validation/validators.py:278-288 | a version passes exactly when it is x.y.z with optional pre-release and build suffixes |
| EntityValidators.ValidateCreateSolution | infrastructure/validation/validators.py:192-206 | solution validation passes exactly when name, description, repository URL, type and version pass and the access URL, when given and not empty, passes |
| EntityValidators.AccessUrlOptional | infrastructure/validation/validators.py:192-206 | an absent and an empty access URL are treated alike, and every solution type's value passes |
| EntityValidators.ValidateAssignment | infrastructure/validation/validators.py:311-321 | an assignment passes exactly when both ids are positive, with one message per non-positive id |
| EntityValidators.ValidateBulkAssignment | infrastructure/validation/validators.py:323-339 | a bulk assignment passes exactly when it names 1 to 100 users and 1 to 50 solutions |
| InputSanitizer.DropControls | infrastructure/validation/validators.py:353-354 | control characters other than newline, carriage return and tab are removed, and a text without them is unchanged |
| InputSanitizer.SliceTo | infrastructure/validation/validators.py:360-361 | the slice is a prefix of the text, as long as the bound when the text is longer |
| InputSanitizer.SanitizeString | infrastructure/validation/validators.py:348-363 | the result has no control characters, is a prefix of the stripped cleaned text, is within a positive length bound, and is the whole stripped cleaned text when no bound is given |
| InputSanitizer.SanitizeStringIdempotent | infrastructure/validation/validators.py:348-363 | sanitizing a sanitized text changes nothing |
| InputSanitizer.SanitizeHtmlAsWrittenNoMarkup | infrastructure/validation/validators.py:366-378 | the HTML escaping as written leaves no '<', '>', '"' or ''' in its result |
| InputSanitizer.SanitizeHtmlAsWrittenDoubleEscapes | infrastructure/validation/validators.py:372-376 | because '&' is replaced last, "<" comes out as "&amp;lt;" instead of "&lt;" |
| InputSanitizer.SanitizeHtmlAgreesWithoutMarkup | infrastructure/validation/validators.py:366-378 | on a text without markup characters the escaping as written and the corrected escaping agree |
| InputSanitizer.EscapeChar | infrastructure/validation/validators.py:372 | a markup character or '&' becomes an entity starting with '&'; any other character is kept |
| InputSanitizer.EscapeHtml | infrastructure/validation/validators.py:366-378 | the corrected escaping leaves no markup character and never shortens the text |
| InputSanitizer.EscapeHtmlRoundTrip | infrastructure/validation/validators.py:366-378 | unescaping the corrected escaping gives back the original text |
| ValidationRules.UsernameFormat | infrastructure/validation/rules.py:35-54 | an empty username is reported missing |
| ValidationRules.UsernameFormatIsFirstError | infrastructure/validation/rules.py:30-54 | the format check reports the first of the validator's username problems, and passes exactly when the validator finds none and the name is not the extra reserved word "dess" |
| ValidationRules.EmailFormat | infrastructure/validation/rules.py:72-90 | an empty email is reported missing |
| ValidationRules.EmailFormatIsFirstError | infrastructure/validation/rules.py:72-90 | the format check reports exactly the first of the validator's email problems, or none |
| ValidationRules.Missing | infrastructure/validation/rules.py:121-132 | the missing criteria are exactly those the password does not meet, as many as the validator counts |
| ValidationRules.PasswordStrength | infrastructure/validation/rules.py:108-141 | the password passes exactly when no problem is listed; an empty one is reported missing; the missing criteria are listed, all of them, exactly when more than one is missing |
| ValidationRules.StrengthList | infrastructure/validation/rules.py:115-139 | too short, too long and too common are each listed exactly when they apply |
| ValidationRules.PasswordStrengthAgrees | infrastructure/validation/rules.py:108-141 | except for the extra common password "password123", the strength rule and the validator accept the same passwords |
| ValidationRules.DateRange | infrastructure/validation/rules.py:240-252 | a range passes exactly when an end is missing or the start is before the end by at most two years; a start not before the end is the reported problem |
| ValidationRules.DateRangeNarrowing | infrastructure/validation/rules.py:240-252 | a range inside a passing range passes |
| ValidationRules.PaginationRule | infrastructure/validation/rules.py:255-268 | pagination passes exactly when the page is at least 1 and the page size between 1 and 100, with one message per violated bound |
| ValidationRules.SearchQuery | infrastructure/validation/rules.py:271-289 | a query passes exactly when its stripped form has 2 to 100 characters and none of the characters < > ; & , the vertical bar or the backquote; an empty one is reported missing |
| ValidationRules.SearchQueryIgnoresPadding | infrastructure/validation/rules.py:276 | padding a passing query with whitespace keeps it passing |
| ApiValidators.RequiredFields | infrastructure/web/validators.py:15-30 | at most one message per required field |
| ApiValidators.RequiredFieldsReportsMissing | infrastructure/web/validators.py:15-30 | a field is reported exactly when it is required and absent, null or empty; only such messages appear, and none appears exactly when every required field is present |
| ApiValidators.RequiredOne | infrastructure/web/validators.py:27-29 | one field is reported exactly when it is absent, null or empty |
| ApiValidators.StringLength | infrastructure/web/validators.py:33-55 | a value passes exactly when it is text whose length lies within the bounds; a non-text value is reported as such, then a too short one, and only then a too long one |
| ApiValidators.EmailCheck | infrastructure/web/validators.py:58-75 | a value passes exactly when it is text of the e-mail form |
| ApiValidators.UrlCheck | infrastructure/web/validators.py:78-96 | a value passes exactly when it is text the URL pattern accepts |
| ApiValidators.IfPresent | infrastructure/web/validators.py:121-164 | a check runs only on a field the body holds |
| ApiValidators.RequiredFieldsCons | infrastructure/web/validators.py:27-30 | the required-field messages are those of the first field followed by those of the rest |
| ApiValidators.UserFieldChecks | infrastructure/web/validators.py:121-164 | a body holding none of the checked user fields gets no field message |
| ApiValidators.UpdateUserData | infrastructure/web/validators.py:169-212 | an empty body passes, and the password is never looked at on update |
| ApiValidators.CreateUserData | infrastructure/web/validators.py:105-166 | creation reports at least the missing required fields |
| ApiValidators.CreateUserDataAccepts | infrastructure/web/validators.py:105-166 | a user body passes creation exactly when all five fields are present, the username, password and full name are text within their length bounds, the email has the e-mail form and the role is "super_admin" or "user" |
| ApiValidators.CreateUserIsRequiredPlusUpdate | infrastructure/web/validators.py:105-212 | without a password, the creation messages are the required-field messages followed by the update messages, and the password is reported missing |
| ApiValidators.UpdateSolutionData | infrastructure/web/validators.py:274-317 | an empty body passes solution update |
| ApiValidators.CreateSolutionData | infrastructure/web/validators.py:221-271 | solution creation reports at least the missing required fields |
| ApiValidators.TypeCheck | infrastructure/web/validators.py:265-269 | a type value passes exactly when it is one of web, api, desktop, mobile, script; anything else gets the type message |
| ApiValidators.CreateSolutionDataAccepts | infrastructure/web/validators.py:221-271 | creation reports nothing exactly when all four fields are present, name and description have allowed lengths, the URL is non-empty text that matches, and the type is allowed |
| ApiValidators.SolutionTypeRule | infrastructure/web/validators.py:312-315 | on update, and likewise on creation, the type message appears exactly when a type is given and is not allowed |
| ApiValidators.SolutionChecksOnlyPresentKeys | infrastructure/web/validators.py:221-317 | a body without the four checked solution fields passes update and fails creation with exactly the four required-field messages in order |
| ApiValidators.ApiTypesAreNotEntityTypes | infrastructure/web/validators.py:266-268 | none of the types the web layer accepts ('web', 'api', 'desktop', 'mobile', 'script') is a solution type of the entity |
| WebUtils.PaginationParams | infrastructure/web/utils.py:354-384 | the page is at least 1 and the page size between 1 and the maximum; a parameter that is not an integer gives the defaults (page 1, size 10) |
| WebUtils.PaginationParamsRoundTrip | infrastructure/web/utils.py:354-379 | in-range parameters written as numbers are read back unchanged |
| WebUtils.PaginationParamsClamps | infrastructure/web/utils.py:365-374 | page 0 becomes 1, page size 0 becomes 10, and a page size above the maximum becomes the maximum |
| WebUtils.PaginationParamsNegativePage | infrastructure/web/utils.py:365-374 | a negative page number such as "-3" becomes page 1, with the page size clamped as usual |
| WebUtils.PaginationParamsDefaults | infrastructure/web/utils.py:365-366 | without parameters the page is 1 and the size 10 |
| WebUtils.CreateApiResponse | infrastructure/web/utils.py:226-252 | the body always holds the success flag, holds the data exactly when given and the error exactly when given, and the status is the one passed |
| WebUtils.StatusFor | infrastructure/web/utils.py:268-281 | a message mentioning "not found" maps to 404, else one about authorisation to 401, else a forbidden one to 403, else a validation one to 400, and any other to 500 |
| WebUtils.HandleApiException | infrastructure/web/utils.py:255-287 | the error reply is unsuccessful, carries no data, carries the message or the default when the message is empty, and its status follows that text |
| WebUtils.StatusForIgnoresCase | infrastructure/web/utils.py:272-279 | the status does not depend on the message's letter case |
| WebUtils.NotFoundWins | infrastructure/web/utils.py:272-273 | any message containing "not found" maps to 404 whatever else it says |
| WebUtils.SectionsPartitionUsers | infrastructure/web/utils.py:157-182 | no user reaches both sections, an authenticated user reaches exactly one, nobody manages themselves, and whoever may manage a user may access every solution |
| SolutionRepository.GetById | infrastructure/database/repositories.py:268-274 | a solution is found exactly when some row has the id, and the row found has it |
| SolutionRepository.GetByName | infrastructure/database/repositories.py:276-282 | a solution is found exactly when some row has the name, and the row found has it |
| SolutionRepository.ByType | infrastructure/database/repositories.py:284-287 | the solutions listed are exactly the rows of the type |
| SolutionRepository.ByStatus | infrastructure/database/repositories.py:289-292 | the solutions listed are exactly the rows with the status |
| SolutionRepository.Create | infrastructure/database/repositories.py:254-266 | creation fails exactly when the name is taken; otherwise the row gets the next key and is placed first |
| SolutionRepository.CreateThenGet | infrastructure/database/repositories.py:254-282 | a created solution keeps the table well formed and is found both by its new key and by its name |
| SolutionRepository.Apply | infrastructure/database/repositories.py:299-305 | applying changed fields never changes the key |
| SolutionRepository.ReplaceRow | infrastructure/database/repositories.py:294-308 | only the row with the key receives the changes |
| SolutionRepository.Update | infrastructure/database/repositories.py:294-310 | an unknown key changes nothing and gives no solution, and only an unknown key does; a known key has its row changed and returned; the update fails, with a unique violation, exactly when it renames the row to a name another row holds |
| SolutionRepository.ApplyAll | infrastructure/database/repositories.py:200-212 | writing back all of a solution's saved fields gives that solution |
| SolutionRepository.Save | infrastructure/database/repositories.py:200-215 | a solution with a non-zero key is saved as an update of all its fields; any other is created, failing exactly when creation fails |
| SolutionRepository.SaveStoredRowIsIdentity | infrastructure/database/repositories.py:200-215 | saving a stored solution unchanged leaves the table as it was |
| SolutionRepository.Delete | infrastructure/database/repositories.py:312-319 | deletion reports whether the key was present, removes its row and keeps every other row |
| SolutionRepository.DeleteCascading | infrastructure/database/models.py:141 | deleting a solution also removes every assignment row naming it and keeps every other assignment row, in order |
| SolutionRepository.DeleteCascadingKeepsReferences | infrastructure/database/models.py:141 | when every assignment row names a stored solution, it still does after a cascading delete |
| SolutionRepository.List | infrastructure/database/repositories.py:321-342 | the count is the number of rows matching the type and status filters, and every listed row matches them |
| SolutionRepository.ListIgnoresActiveFilter | infrastructure/database/repositories.py:321-342 | the active filter parameter has no effect on the listing |
| SolutionRepository.ListShowsEveryMatch | infrastructure/database/repositories.py:334-342 | the i-th matching row appears on page i/size + 1 at position i mod size |
| SolutionRepository.Stats | infrastructure/database/repositories.py:344-368 | the total is the number of rows and each type's count is the number of rows of that type |
| SolutionRepository.StatsAddUp | infrastructure/database/repositories.py:344-368 | the deployed and pending counts (with and without an access URL) add up to the total, and the active, inactive and failed counts never exceed it |
| AssignmentRows.UserSolutions | infrastructure/database/repositories.py:401-407 | the solutions listed for a user are exactly those of its active rows |
| AssignmentRows.SolutionUsers | infrastructure/database/repositories.py:409-415 | the users listed for a solution are exactly those of its active rows |
| AssignmentRows.AllAssignments | infrastructure/database/repositories.py:417-422 | the pairs listed are exactly those of the active rows |
| AssignmentRows.ListingsAgree | infrastructure/database/repositories.py:397-422 | the three listings and the assignment check agree on which pairs are assigned |
| HardAssignmentStore.Create | infrastructure/database/repositories.py:438-457 | a pair is added, active, exactly when no row holds it yet, active or not, and both user and solution exist; otherwise nothing changes |
| HardAssignmentStore.Assign | infrastructure/database/repositories.py:389-391 | assigning is creating the pair's row, with the arguments in creation's order |
| HardAssignmentStore.CreateThenExists | infrastructure/database/repositories.py:438-457 | after a creation the pair is assigned, the table stays well formed, and creating it again is refused |
| HardAssignmentStore.InactivePairStaysUnassigned | infrastructure/database/repositories.py:443-447 | a pair whose row is inactive can never be assigned again |
| HardAssignmentStore.Delete | infrastructure/database/repositories.py:459-469 | deletion reports whether a row for the pair existed, removes it, and keeps every other row in order |
| HardAssignmentStore.DeleteThenCreate | infrastructure/database/repositories.py:438-469 | after deleting a pair it can be created again |
| HardAssignmentStore.RemoveAllUserAssignments | infrastructure/database/repositories.py:424-428 | all the user's rows, active or not, are removed and counted, and every other row stays |
| HardAssignmentStore.RemoveAllSolutionAssignments | infrastructure/database/repositories.py:430-434 | all the solution's rows are removed and counted, and every other row stays |
| HardAssignmentStore.RemoveAllUserEmptiesListing | infrastructure/database/repositories.py:401-428 | afterwards the user has no solutions, and every other user's assignments are unchanged |
| HardAssignmentStore.UserAssignments | infrastructure/database/repositories.py:471-487 | the user's active rows, whose solutions are exactly the user's listed solutions |
| HardAssignmentStore.SolutionAssignments | infrastructure/database/repositories.py:489-505 | the solution's active rows, whose users are exactly the solution's listed users |
| SoftAssignmentStore.SetFlag | infrastructure/repositories/django_solution_assignment_repository.py:18-54 | only the pair's row has its flag set |
| SoftAssignmentStore.SetFlagKeepsWellFormed | infrastructure/repositories/django_solution_assignment_repository.py:18-54 | changing a flag keeps one row per pair |
| SoftAssignmentStore.Assign | infrastructure/repositories/django_solution_assignment_repository.py:18-39 | assigning succeeds exactly when user and solution exist; it then reactivates the pair's row, or adds an active one when there is none |
| SoftAssignmentStore.AssignIdempotent | infrastructure/repositories/django_solution_assignment_repository.py:18-39 | after an assignment the pair is assigned, and assigning again changes nothing |
| SoftAssignmentStore.SetFlagTwice | infrastructure/repositories/django_solution_assignment_repository.py:31-33 | reactivating twice is reactivating once |
| SoftAssignmentStore.Unassign | infrastructure/repositories/django_solution_assignment_repository.py:41-54 | unassigning succeeds exactly when the pair is actively assigned, and then only clears its flag |
| SoftAssignmentStore.AssignThenUnassign | infrastructure/repositories/django_solution_assignment_repository.py:18-54 | after assign and unassign the pair is no longer assigned but its row remains, and a second unassign fails |
| SoftAssignmentStore.RowsNeverRemoved | infrastructure/repositories/django_solution_assignment_repository.py:18-54 | no operation of this store removes a row |
| SoftAssignmentStore.DeactivateWhere | infrastructure/repositories/django_solution_assignment_repository.py:90-106 | exactly the selected active rows are deactivated |
| SoftAssignmentStore.RemoveAllUserAssignments | infrastructure/repositories/django_solution_assignment_repository.py:90-97 | every row keeps its pair, a row is active afterwards exactly when it was active and belongs to another user, and the count is the number of the user's active rows |
| SoftAssignmentStore.RemoveAllSolutionAssignments | infrastructure/repositories/django_solution_assignment_repository.py:99-106 | every row keeps its pair, a row is active afterwards exactly when it was active and belongs to another solution, and the count is the number of the solution's active rows |
| SoftAssignmentStore.RemoveAllUserClearsListing | infrastructure/repositories/django_solution_assignment_repository.py:64-97 | afterwards the user has no solutions, the count is the number the user had, and other users are unaffected |
| SecurityValidator.KindsPartitionAccounts | infrastructure/security/validators.py:18-32 | an authenticated account is exactly one of super admin and regular user |
| SecurityValidator.CanAccessSolutionAsWritten | infrastructure/security/validators.py:34-48 | nobody unauthenticated gets in, a super admin always does, and a regular user exactly when any assignment row for the pair exists, active or not |
| SecurityValidator.CanAccessSolution | infrastructure/security/validators.py:34-48 | as written, except that a regular user needs an active assignment |
| SecurityValidator.UnassignedUserStillAdmitted | infrastructure/security/validators.py:44-46 | after the store withdraws a regular user's only assignment, the written check still admits them and the corrected one does not |
| SecurityValidator.AccessFollowsStore | infrastructure/security/validators.py:34-48 | with the corrected check, assigning a solution to a regular user grants access and unassigning it withdraws it |
| SecurityValidator.EditIffView | infrastructure/security/validators.py:67-91 | viewing and editing a user's details are granted to exactly the same requesters |
| SecurityValidator.AllowedRedirect | infrastructure/security/validators.py:93-102 | the login page exactly for the unauthenticated, the admin dashboard exactly for super admins, the user dashboard exactly for regular users |
| SecurityValidator.RedirectMatchesPanel | infrastructure/security/validators.py:93-102 | the admin dashboard is the redirect exactly for those who may open the admin panel, and those sent to the user dashboard may not manage users |
| SecurityValidator.CanMakeApiRequest | infrastructure/security/validators.py:110-122 | a request is allowed exactly when the user is authenticated, whatever the role |
| SecurityValidator.CanLoginAttempt | infrastructure/security/validators.py:124-128 | every login attempt is allowed |
| UserRepository.ToEntity | infrastructure/database/repositories.py:182-195 | the user handed back is the row with its password withheld |
| UserRepository.GetById | infrastructure/database/repositories.py:95-101 | a user is found exactly when some row has the key; it has that key and no password |
| UserRepository.IdsUnique | infrastructure/database/repositories.py:95-101 | in a well-formed table at most one row has a key |
| UserRepository.GetByUsername | infrastructure/database/repositories.py:103-109 | a user found has the name and no password; in a well-formed table none is found only when no row has the name |
| UserRepository.UsernamesUnique | infrastructure/database/repositories.py:103-109 | two rows sharing a username break the table's uniqueness |
| UserRepository.GetByEmail | infrastructure/database/repositories.py:111-117 | nothing is found exactly when no row has the address; the lookup fails exactly when several rows share it; a user found has the address and no password |
| UserRepository.Create | infrastructure/database/repositories.py:77-93 | creation fails for a missing or empty password, then for an empty username, and otherwise exactly when the username is taken; a new row with the email normalised is appended under the next key and returned without its password |
| UserRepository.NormalizeEmail | infrastructure/database/repositories.py:84-91 | an address without '@' is kept; otherwise the result is as long as the stripped address |
| UserRepository.NormalizeEmailKeeps | infrastructure/database/repositories.py:84-91 | an address without surrounding spaces whose domain is already lower-case is stored unchanged |
| UserRepository.NormalizeEmailIdempotent | infrastructure/database/repositories.py:84-91 | normalising an already normalised address changes nothing |
| UserRepository.CreateThenGet | infrastructure/database/repositories.py:77-101 | a created user keeps the table well formed and is found under its new key |
| UserRepository.Apply | infrastructure/database/repositories.py:119-131 | changing fields never changes a user's key or password |
| UserRepository.ReplaceRow | infrastructure/database/repositories.py:119-131 | only the row with the key receives the changes |
| UserRepository.Update | infrastructure/database/repositories.py:119-133 | an unknown key changes nothing and gives no user; a known key has exactly its row replaced by the row with the changes applied, and that row is returned without password; the update fails exactly when the key is known and the new username is held by another row |
| UserRepository.UpdateThenGet | infrastructure/database/repositories.py:95-133 | after an update the table stays well formed and the key finds the updated user |
| UserRepository.ReplaceRowKeepsWellFormed | infrastructure/database/repositories.py:119-131 | changing a stored row to a name no other row holds keeps the table well formed |
| UserRepository.FoundByKey | infrastructure/database/repositories.py:95-101 | the lookup by a row's key returns that row without its password |
| UserRepository.Save | infrastructure/database/repositories.py:22-35 | a user with a non-zero key is saved as an update of its profile fields; any other is created |
| UserRepository.SaveZeroIdCreates | infrastructure/database/repositories.py:22-35 | a user whose key is zero is created as a new row rather than updated |
| UserRepository.Delete | infrastructure/database/repositories.py:135-142 | deletion reports whether the key was found and removes exactly the rows with that key |
| UserRepository.DeleteRemoves | infrastructure/database/repositories.py:135-142 | after a deletion the table stays well formed and the key finds nothing |
| UserRepository.DeleteCascading | infrastructure/database/models.py:140 | deleting a user also removes every assignment row naming the user and keeps every other assignment row, in order |
| UserRepository.DeleteCascadingKeepsReferences | infrastructure/database/models.py:140 | when every assignment row names a stored user, it still does after a cascading delete |
| UserRepository.List | infrastructure/database/repositories.py:144-164 | the count is the number of rows matching the role and active filters, the page exists exactly when the slice does, and no listed user carries a password |
| UserRepository.ListShowsEveryMatch | infrastructure/database/repositories.py:144-164 | the i-th matching row appears on page i/size + 1 at position i mod size |
| UserRepository.Stats | infrastructure/database/repositories.py:166-180 | the total is the number of rows, and the active and super-admin counts do not exceed it |
| UserRepository.StatsAddUp | infrastructure/database/repositories.py:166-180 | the inactive count is the number of inactive rows, and super admins plus regular users make the total |
| UserStore.FindById | core/interfaces/repositories.py:24-27 | a user found is stored and has the key; none is found exactly when no stored user has it |
| UserStore.FindByIdFinds | core/interfaces/repositories.py:24-27 | with unique keys the user found is the one stored under the key |
| UserStore.Keys | core/interfaces/repositories.py:24-27 | the keys are exactly those the lookup finds |
| UserStore.FindByUsername | core/interfaces/repositories.py:29-32 | a user found is stored and has the name; none is found exactly when no stored user has it |
| UserStore.FindByEmail | core/interfaces/repositories.py:34-37 | a user found is stored and has the address; none is found exactly when no stored user has it |
| UserStore.ExistsAgreesWithFind | core/interfaces/repositories.py:29-62 | the existence checks hold exactly when the matching finder finds a user |
| UserStore.FindByRole | core/interfaces/repositories.py:44-47 | the listing holds exactly the stored users with the role |
| UserStore.CountTotal | core/interfaces/repositories.py:64-67 | the count is the number of stored users |
| UserStore.CountActive | core/interfaces/repositories.py:69-72 | the active count never exceeds the total |
| UserStore.Save | core/interfaces/repositories.py:19-22 | a user whose key is stored replaces the stored one; any other is appended under the next key, which it is returned with |
| UserStore.SaveThenFind | core/interfaces/repositories.py:19-32 | saving a user whose name is free keeps keys and names unique, and the saved user is then found by its key and by its name |
| UserUseCases.GetUserOrRaise | core/use_cases/user_use_cases.py:15-21 | the user is found exactly when some stored user has the key; otherwise the error names the key |
| UserUseCases.RoleFromName | core/use_cases/user_use_cases.py:32 | the role is super admin exactly for the text `super_admin`; any other text gives a regular user |
| UserUseCases.RoleFromNameRoundTrip | core/use_cases/user_use_cases.py:32 | reading back a role's stored text gives the role |
| UserUseCases.CreateUser | core/use_cases/user_use_cases.py:23-55 | a taken username is refused first, then a taken email; creation succeeds exactly when both are free and the new user is valid, and the user is saved under the next key |
| UserUseCases.CreateUserThenFind | core/use_cases/user_use_cases.py:23-55 | a created user is found by key and by name, the store grows by one and stays well formed, and the password given verifies |
| UserUseCases.ApplyUpdates | core/use_cases/user_use_cases.py:94-107 | each field given replaces the user's, the others stay, key and password never change; an unknown role name is an error |
| UserUseCases.UpdateUser | core/use_cases/user_use_cases.py:76-111 | an unknown key is an error; a changed username that exists is refused, then a changed email that exists; the update succeeds exactly when neither clashes and the updates applied to the stored user give a valid user, which is the result |
| UserUseCases.RenamedNameFree | core/use_cases/user_use_cases.py:84-86 | a user keeping its name, or taking one nobody holds, does not clash with another user |
| UserUseCases.UpdateUserThenFind | core/use_cases/user_use_cases.py:73-111 | after an update the store stays well formed, the same size, and the key finds the updated user |
| UserUseCases.UpdateUserKeepsOthers | core/use_cases/user_use_cases.py:73-111 | an update leaves every other key's user as it was |
| UserUseCases.Delete | core/interfaces/repositories.py:49-52 | deletion reports whether the key was found, removes exactly that user and keeps every other |
| UserUseCases.DeleteUser | core/use_cases/user_use_cases.py:114-130 | an unknown key is an error; the only super admin cannot be deleted; otherwise the user is deleted |
| UserUseCases.DeleteUserRemoves | core/use_cases/user_use_cases.py:114-130 | after a deletion the store stays well formed, the key finds nothing and the count drops by one |
| UserUseCases.SuperAdminSurvives | core/use_cases/user_use_cases.py:124-128 | a store with a super admin still has one after any permitted deletion |
| UserUseCases.ActiveUsers | core/use_cases/user_use_cases.py:144-147 | the listing holds exactly the active stored users, in the store's order |
| UserUseCases.ActiveUsersCounted | core/use_cases/user_use_cases.py:144-158 | the active listing has as many users as the active count |
| UserUseCases.GetUserStats | core/use_cases/user_use_cases.py:150-170 | the total and active figures are the store's counts |
| UserUseCases.StatsAgree | core/use_cases/user_use_cases.py:150-170 | the use case's figures equal the database repository's, inactive users are counted correctly, and super admins plus regular users make the total |
| ProfileUseCases.FilledFields | core/use_cases/profile_use_cases.py:47-63 | between one and five profile fields are filled, the role always |
| ProfileUseCases.ProfileCompletion | core/use_cases/profile_use_cases.py:47-63 | completion is a multiple of 20 between 20 and 100, and is 100 exactly when username, email and full name are filled and the account is active |
| ProfileUseCases.CompletionOfValidUser | core/use_cases/profile_use_cases.py:47-63 | a valid user's profile is complete when active and 80 per cent complete otherwise |
| ProfileUseCases.PermissionsOf | core/use_cases/profile_use_cases.py:65-79 | everyone may view the dashboard, edit the profile and change the password; the five management permissions are held exactly by super admins |
| ProfileUseCases.PermissionsAgainstEntity | core/use_cases/profile_use_cases.py:65-79 | for an active account the table agrees with the entity's own permission checks; for an inactive super admin it grants what the entity refuses |
| ProfileUseCases.GetUserProfile | core/use_cases/profile_use_cases.py:24-45 | an unknown key is an error; otherwise the profile shows the user's fields, completion and permissions |
| ProfileUseCases.UpdateUserProfile | core/use_cases/profile_use_cases.py:81-111 | an unknown key is an error; a changed email already in use is refused; only email and full name change and the result stays valid |
| ProfileUseCases.ProfileUpdateIsUserUpdate | core/use_cases/profile_use_cases.py:81-111 | a profile update is a user update restricted to email and full name |
| ProfileUseCases.UpdateUserProfileThenFind | core/use_cases/profile_use_cases.py:81-111 | after a profile update the store stays well formed and the key finds the updated user |
| ProfileUseCases.PasswordChange | core/use_cases/profile_use_cases.py:117-140 | a missing user, a wrong current password, an unchanged password and a short one are refused in that order; otherwise only the password is replaced |
| ProfileUseCases.ChangeUserPassword | core/use_cases/profile_use_cases.py:114-140 | over a store that keeps passwords, the change succeeds exactly when the user exists, the current password verifies and the new one differs and is long enough |
| ProfileUseCases.ChangeUserPasswordOverDatabase | core/use_cases/profile_use_cases.py:121-125 | over the database repository, which hands users back without a password, every existing user's change is refused as a wrong password |
| ProfileUseCases.RightPasswordRefusedOverDatabase | core/use_cases/profile_use_cases.py:121-125 | the stored password is refused over the database repository but accepted over a store that keeps passwords |
| ProfileUseCases.ChangeUserPasswordThenVerify | core/use_cases/profile_use_cases.py:114-140 | after a change the new password verifies, the old one does not, and nothing else about the user changes |
| ProfileUseCases.AccountAgeDays | core/use_cases/profile_use_cases.py:162-168 | no creation time gives zero; otherwise the whole days elapsed, rounded down |
| ProfileUseCases.GetUserActivity | core/use_cases/profile_use_cases.py:143-160 | an unknown key is an error; the status is `active` exactly for active users, logins are zero and the age is the account's age in days |
| ProfileUseCases.ProbeFieldsValid | core/use_cases/profile_use_cases.py:178-186 | the placeholder email, full name and password used to check a username are themselves valid |
| ProfileUseCases.ValidateUsername | core/use_cases/profile_use_cases.py:174-197 | a malformed username is reported as such; a well-formed one is in use exactly when another user holds it |
| ProfileUseCases.ValidateEmail | core/use_cases/profile_use_cases.py:199-222 | an email is malformed exactly when the placeholder user built around it is invalid; a well-formed one is in use exactly when another user holds it |
| ProfileUseCases.UsernameCheckMatchesCreate | core/use_cases/profile_use_cases.py:174-197 | with no user given, a username is available exactly when it is valid and nobody holds it |
| ProfileUseCases.OwnUsernameAvailable | core/use_cases/profile_use_cases.py:194 | a user's own valid username is reported available to that user |
| ProfileUseCases.ZeroKeyIsNoKey | core/use_cases/profile_use_cases.py:194-219 | passing the key zero is the same as passing no key |
| SolutionStore.FindById | core/interfaces/repositories.py:85-88 | a solution found is stored and has the key; none is found exactly when no stored solution has it |
| SolutionStore.FindByIdFinds | core/interfaces/repositories.py:85-88 | with unique keys the solution found is the one stored under the key |
| SolutionStore.ExistsByNameMeansHeld | core/interfaces/repositories.py:115-118 | the name check holds exactly when some stored solution has the name |
| SolutionStore.Keys | core/interfaces/repositories.py:85-88 | the keys are exactly those the lookup finds |
| SolutionStore.Replace | core/interfaces/repositories.py:80-83 | only the solution with the saved one's key is replaced |
| SolutionStore.Save | core/interfaces/repositories.py:80-83 | a solution whose key is stored replaces the stored one; any other is appended under the next key, which it is returned with |
| SolutionStore.RenamedNameFree | core/use_cases/solution_use_cases.py:69-72 | a solution keeping its name, or taking one nobody holds, does not clash with another solution |
| SolutionStore.SaveThenFind | core/interfaces/repositories.py:80-93 | saving a solution whose name is free keeps keys and names unique, and the saved solution is then found by its key and its name |
| SolutionStore.SaveKeepsOthers | core/interfaces/repositories.py:80-88 | saving a stored solution leaves every other key's solution as it was |
| SolutionStore.Delete | core/interfaces/repositories.py:110-113 | deletion reports whether the key was found, removes exactly that solution and keeps every other |
| SolutionStore.DeleteRemoves | core/interfaces/repositories.py:110-113 | after a deletion the store stays well formed and the key finds nothing |
| SolutionUseCases.TypeOf | core/use_cases/solution_use_cases.py:22 | a type given as text becomes the type with that value; a type given as a member is kept |
| SolutionUseCases.CreateSolution | core/use_cases/solution_use_cases.py:16-40 | an unknown type text is refused first, then a taken name; creation succeeds exactly when the type is known, the name free and the fields valid, and appends the solution, active or inactive as asked, under the next key |
| SolutionUseCases.CreateSolutionThenFind | core/use_cases/solution_use_cases.py:16-40 | a created solution is found by key and name, the store grows by one and stays well formed, and the solution is open to users exactly when created active |
| SolutionUseCases.Assigned | core/use_cases/solution_use_cases.py:74-86 | each field given replaces the solution's, the others, the key and the deployment data stay |
| SolutionUseCases.UpdateSolution | core/use_cases/solution_use_cases.py:60-91 | an unknown key is an error; renaming to a taken name is refused; a type given as text fails validation; otherwise the update succeeds exactly when the updated fields are valid |
| SolutionUseCases.UpdateSolutionThenFind | core/use_cases/solution_use_cases.py:60-91 | after an update the store stays well formed, the same size, and the key finds the updated solution |
| SolutionUseCases.UpdateSolutionKeepsOthers | core/use_cases/solution_use_cases.py:60-91 | an update leaves every other key's solution as it was |
| SolutionUseCases.DeleteSolution | core/use_cases/solution_use_cases.py:102-116 | an unknown key is an error; otherwise the solution is deleted and, when an assignment store is given, every row of the solution is removed from it and every other row stays |
| SolutionUseCases.DeleteSolutionRemoves | core/use_cases/solution_use_cases.py:102-116 | after a deletion the store stays well formed, the key is gone and no user is assigned the solution |
| SolutionUseCases.DeploySolution | core/use_cases/solution_use_cases.py:136-149 | an unknown key is an error; deployment succeeds exactly from the active and pending states, and marks the solution deployed |
| SolutionUseCases.DeploySolutionThenFind | core/use_cases/solution_use_cases.py:136-149 | a deployed solution is stored under its key, open to users, and every other solution is unchanged |
| SolutionUseCases.AssignSolution | core/use_cases/solution_use_cases.py:160-176 | an unknown solution, one closed to users and a pair already assigned are refused in that order; otherwise the store's assignment decides, and it adds the pair exactly when no row holds it and the user exists |
| SolutionUseCases.DeactivatedPairNotReassigned | core/use_cases/solution_use_cases.py:160-176 | over the database store, a pair whose row was deactivated is reported unassigned and yet can never be assigned again |
| SolutionUseCases.UnassignSolution | core/use_cases/solution_use_cases.py:185-193 | unassigning fails exactly when the pair is not assigned; otherwise the pair's row goes and every other row stays; the user-solution unassign use case behaves the same |
| SolutionUseCases.AssignThenUnassign | core/use_cases/solution_use_cases.py:160-193 | a pair just assigned is assigned, can be unassigned, and is then no longer assigned |
| SolutionUseCases.FoundSolutions | core/use_cases/solution_use_cases.py:210-216 | the solutions kept are stored ones whose keys were asked for, and every key that is found contributes its solution |
| SolutionUseCases.FoundSolutionsInOrder | core/use_cases/solution_use_cases.py:204-216 | the listing has one solution per key that names a stored solution, in the keys' order, each being that key's lookup |
| SolutionUseCases.GetUserSolutions | core/use_cases/solution_use_cases.py:204-216 | no more solutions than the user has assignments |
| SolutionUseCases.UserSolutionsAreAssigned | core/use_cases/solution_use_cases.py:204-216 | a solution is listed exactly when it is stored and actively assigned to the user |
| UserSolutionUseCases.GetUserSolutions | core/use_cases/user_solution_use_cases.py:26-47 | an unknown user is an error; otherwise the listing is that of the solution use case |
| UserSolutionUseCases.GetUserSolutionsAreAssigned | core/use_cases/user_solution_use_cases.py:26-47 | for a known user a solution is listed exactly when it is stored and actively assigned to the user |
| UserSolutionUseCases.FilterWith | core/use_cases/user_solution_use_cases.py:72-91 | a solution is kept exactly when it passes every filter given, and the kept ones stay in their listing order |
| UserSolutionUseCases.FilterAsWritten | core/use_cases/user_solution_use_cases.py:58-93 | an unknown user is an error |
| UserSolutionUseCases.FilterAsWrittenEmpty | core/use_cases/user_solution_use_cases.py:81-91 | any type or status filter empties the listing, as a member is compared with text |
| UserSolutionUseCases.FilterUserSolutions | core/use_cases/user_solution_use_cases.py:58-93 | an unknown user is an error; otherwise a solution is kept exactly when it is the user's, matches the search, and its type and status values equal the texts given, in the order of the user's listing |
| UserSolutionUseCases.FilterKeepsMatching | core/use_cases/user_solution_use_cases.py:58-93 | filtering by a type's and a status's values keeps exactly the user's solutions of that type and status |
| UserSolutionUseCases.AssignWith | core/use_cases/user_solution_use_cases.py:109-139 | an unknown user, an unknown solution and an inactive user are refused in that order; a solution the status test rejects is refused; otherwise the store's assignment decides |
| UserSolutionUseCases.AssignAsWritten | core/use_cases/user_solution_use_cases.py:109-139 | an unknown user is an error |
| UserSolutionUseCases.AssignAsWrittenRefuses | core/use_cases/user_solution_use_cases.py:128-129 | every existing solution is refused to every active user, as a member never equals the text `active` |
| UserSolutionUseCases.AssignToUser | core/use_cases/user_solution_use_cases.py:109-139 | assignment goes ahead exactly for an active user and an active solution, and adds the pair exactly when no row holds it |
| UserSolutionUseCases.AccessWith | core/use_cases/user_solution_use_cases.py:183-203 | access needs an active user; a user other than a super admin also needs a stored solution passing the status test and an active assignment |
| UserSolutionUseCases.CheckAccessAsWritten | core/use_cases/user_solution_use_cases.py:183-203 | access is granted only to a known user |
| UserSolutionUseCases.CheckAccessAsWrittenOnlyAdmins | core/use_cases/user_solution_use_cases.py:194-200 | access is granted exactly to active super admins, as no solution status equals the text `active` |
| UserSolutionUseCases.CheckAccess | core/use_cases/user_solution_use_cases.py:183-203 | access is granted only to a known, active user |
| UserSolutionUseCases.AssignThenAccess | core/use_cases/user_solution_use_cases.py:109-203 | a user just assigned a solution may access it |
| UserSolutionUseCases.UnassignRevokesAccess | core/use_cases/user_solution_use_cases.py:150-203 | a user other than a super admin loses access to an unassigned solution |
| UserSolutionUseCases.AccessOfRegularUser | core/use_cases/user_solution_use_cases.py:183-203 | a user other than a super admin has access exactly when active, and the solution is stored, active and actively assigned to them |
| Patterns.EmailFromParts | core/entities/user.py:69-70 | an address made of a local part, `@`, a domain, a dot and a top level of two or more letters matches the address pattern |
| Patterns.ParseCoreUnique | core/entities/enhanced_solution.py:137 | the three numbers at the start of a version are read in the one way the pattern allows |
| Patterns.PlainVersionMatches | core/entities/enhanced_solution.py:137-138 | every plain `x.y.z` of digit strings matches the semantic-version pattern, and the solution entity's basic version pattern as well |
| Patterns.PreReleaseVersionMatches | core/entities/enhanced_solution.py:137-138 | every `x.y.z-tag` with a tag of letters matches the semantic-version pattern, and the solution entity's basic version pattern as well |

## Left out

- Subprocess, git, Docker SDK, HTTP and socket calls, `tempfile` and `shutil`: their outcomes are oracle parameters of the deployment functions.
- `time.sleep` in the verification loop: only the waits 5 + 2i and their total are modelled.
- Timestamps and `datetime.now()`: creation times, uptimes and "now" are integer parameters; log lines take the timestamp text as a parameter.
- The text of the Dockerfile templates and their shell commands: a template is a tag naming the table entry.
- `_diagnose_container_failure`, `_execute_diagnostic_commands`, `_log` and every logger call: they only write operator logs.
- `_create_solution_from_deployment` and `_update_solution_status`: ORM writes to the solution table. Only the type mapping and the record operations they perform on the modelled tables are kept (`Pipeline.PublishSolution`, `Pipeline.MarkInactive`).
- `get_health_score` and the float parts of `update_metrics` (uptime and error rate): floating point.
- The URL regular expressions of `APIValidator.validate_url` and of the rules' `URL_PATTERN`: they are a predicate parameter. `ValidationConstants.USERNAME_REGEX`, read by the user entity, is not defined in `core/constants.py` (a finding), so the intended username character check is an uninterpreted predicate parameter as well.
- `sanitize_sql_input`: its deletions are driven by regular expressions with flags.
- The uniqueness and limit rules of `rules.py` that query the database.
- Serializers, DTOs, `DashboardContextBuilder`, `ListViewHelper` and `AuditHelper`: presentation.
- The permission cache of `cached_permission`, the dependency-injection containers and JWT authentication.
- The thread the webhook view starts, and concurrent deployments: the redeploy it schedules is modelled as a flag on the result.
- The exception classes and their HTTP handlers: errors are `Result` values.
- `ListSolutionsUseCase`: it calls `list`, which the `SolutionRepository` interface does not declare. The database repository's `list` is modelled as `SolutionRepository.List`.
- `GetSolutionStatsUseCase`: it returns fixed zeros, so there is nothing to state beyond the constant.
- `GetSolutionUseCase`, `GetUserUseCase` and `ListUsersUseCase.execute_all` / `execute_by_role`: each returns the interface lookup unchanged. They are modelled by the store lookups `SolutionStore.FindById`, `UserStore.FindById`, `UserStore.FindByUsername`, `UserStore.FindByEmail` and `UserStore.FindByRole`.
- `find_all`, `find_active`, `find_by_type`, `count_total` and `count_active` of the solution interface: no modelled use case calls them. The database equivalents are `SolutionRepository.ByType`, `SolutionRepository.ByStatus` and `SolutionRepository.Stats`.
- `_django_solution_to_entity` passes an `access_url` keyword that the `Solution` entity does not declare, so every solution the database repository returns would raise. The solution repository is modelled on its table rows, and the use cases run over the `SolutionStore` interface.
- UserRepository.ToEntity: `_django_user_to_entity` builds a `User`, whose `__post_init__` runs `validate` and raises `ValueError` for a stored row that breaks the entity rules, such as an empty full name (which `createsuperuser` can store) or one longer than 100 characters (the column allows 200). The model hands every row back as a user and does not model that error.
- UserRepository.Delete: acts on the user table only. The `CASCADE` removal of the user's assignment rows is stated by `UserRepository.DeleteCascading`. The `SET_NULL` on `assigned_by` is not modelled, because assignment rows carry no `assigned_by`.
- SolutionRepository.Delete: acts on the solution table only. The `CASCADE` removal of the solution's assignment rows is stated by `SolutionRepository.DeleteCascading`.
- The user interface store keeps passwords, while the database repository withholds them (`UserRepository.ToEntity`). `UserStore` follows the interface; the password change over the database repository is a finding.
- `UserSolutionUseCases.FilterAsWritten`, `UserSolutionUseCases.AssignAsWritten`, `UserSolutionUseCases.CheckAccessAsWritten`: their own contracts state only the unknown-user case. Their full behaviour is stated by `FilterAsWrittenEmpty`, `AssignAsWrittenRefuses` and `CheckAccessAsWrittenOnlyAdmins`.
- `SolutionUseCases.GetUserSolutions`: its own contract bounds only the length. Membership is stated by `SolutionUseCases.UserSolutionsAreAssigned`.
- `Text.Lower`: Python's `lower` is modelled for ASCII and Latin-1 capitals only.
- SolutionEntity.VersionProblem: `\d` is read as an ASCII digit; Python's `re` also matches every other Unicode decimal digit in a `str` pattern.
- EntityValidators.FullNameErrors: the digit-run check reads `\d` as an ASCII digit, not as any Unicode decimal digit.
- EntityValidators.MissingCriteria: the digit class `\d` is read as ASCII only, so a password such as "Abcdefgh١" lacks a digit here but not in the source. The upper- and lower-case classes are `[A-Z]` and `[a-z]` in the source and ASCII here as well.
- EntityValidators.VersionErrors: `\d` is read as an ASCII digit, not as any Unicode decimal digit, and `\w` in the pre-release and build tags as an ASCII letter, digit or `_`, not as any Unicode word character; "1.0.0-béta" and "١.٢.٣" pass in the source and fail here.
- WebUtils.PaginationParams: parameters are read with `Text.PyInt`, which takes one sign and ASCII digits; Python's `int` also accepts `_` between digits and every Unicode decimal digit, so such texts get the defaults here instead of their value.
- CloneRepository.CloneRepo: the clone directory is named after the trailing-suffix repository name (`DeploymentModel.RepoNameSuffixOnly`), whereas the source calls `get_repo_name` (deployment_service.py line 497), which would clone `https://github.com/user/user.github.io` into `userhub.io`. The two names coincide for every name without ".git" inside it (`DeploymentModel.GetRepoNameAgrees`).
- Pipeline.PublishSolution: the default description likewise uses the trailing-suffix repository name where the source calls `get_repo_name` (deployment_service.py line 1056); the same agreement lemma covers the names where they coincide.
- EntityValidators.UrlErrors: `urlsplit`'s checks of bracketed hosts (`_check_bracketed_netloc` and `_check_bracketed_host`: the IPv6 or IPvFuture address inside the brackets and what may stand around them) are not modelled; only unbalanced brackets raise. The NFKC check of a non-ASCII network location (`_checknetloc`, which raises when normalisation introduces '/', '?', '#', '@' or ':') is not modelled either. The input preparation follows a recent Python, which strips leading C0 controls and spaces and drops every tab, CR and LF.
- EnhancedSolutionEntity.Problems: the semantic-version check (enhanced_solution.py line 137) reads `\d` and `\w` as ASCII, whereas Python's `re` matches every Unicode decimal digit and word character; "1.0.0-béta" and "١.٢.٣" are valid in the source and invalid here.
- EnhancedSolutionEntity.NewEnhancedSolution: inherits the ASCII reading of the version pattern from `Problems`, so such versions are refused here and accepted by the source.
- EnhancedSolutionEntity.ProblemsOneByOne: its version problem uses the same ASCII reading of `\d` and `\w`.
- EnhancedSolutionEntity.IncrementVersionAsWritten: a version written in non-ASCII digits is invalid here and bumps to "1.0.0"; the source accepts "١.٢.٣", and `int` reads those digits, so it gives "1.2.4".
- EnhancedSolutionEntity.IncrementVersionReadsBack: its "an invalid version gives 1.0.0" clause rests on the same ASCII version pattern.
- ValidationRules.Missing: the digit criterion reads `\d` (rules.py line 124) as an ASCII digit; "Abcdefgh١" has a digit for the source but not here.
- ValidationRules.PasswordStrength: inherits the ASCII digit criterion of `ValidationRules.Missing`.
- UserRepository.Create: Django's `normalize_username` (NFKC) and password hashing are not modelled, and `normalize_email`'s `strip` and `lower` are `Text.Strip` and `Text.Lower`, the latter lowering ASCII and Latin-1 capitals only.

## Findings

| source | as written | input that shows it | evidently intended | confidence | as-written member | corrected member |
|---|---|---|---|---|---|---|
| infrastructure/database/models_package/deployment.py:108-112 | `get_repo_name` deletes every `.git` in the last path segment | `https://github.com/user/user.github.io` gives `userhub.io` | remove only a trailing `.git` | not executed | DeploymentModel.GetRepoName, DeploymentModel.GetRepoNameMangles | DeploymentModel.RepoNameSuffixOnly, DeploymentModel.RepoNameSuffixOnlyRecovers |
| core/entities/enhanced_solution.py:205-206 | `increment_version` calls `int` on the third dot-separated part, which still holds any pre-release tag | `1.2.3-beta` passes validation, and bumping it raises | bump the numeric core of any valid version | not executed | EnhancedSolutionEntity.IncrementVersionAsWritten, EnhancedSolutionEntity.IncrementAsWrittenRejectsPreRelease | EnhancedSolutionEntity.IncrementVersionReadsBack |
| core/entities/enhanced_solution.py:221-224 | `add_tag` tests membership of the raw tag but stores the normalised one | adding `Web` twice stores `web` twice | no duplicate tags | not executed | EnhancedSolutionEntity.AddTagAsWritten, EnhancedSolutionEntity.AddTagAsWrittenDuplicates | EnhancedSolutionEntity.AddTag, EnhancedSolutionEntity.AddTagIdempotent |
| core/entities/user.py:205-221 | `__eq__` falls back to the username when either id is missing, while `__hash__` uses the id when there is one | a stored user with id 1 and an unsaved user with the same username are equal but hash differently | equal users hash alike, and equality is transitive | not executed | UserEntity.SameUserAsWrittenBreaksHash | UserEntity.SameUserAgrees, UserEntity.SameUserIsConsistent |
| infrastructure/validation/validators.py:372-376 | `sanitize_html_input` escapes `&` after the other characters | `<` becomes `&amp;lt;` | `<` becomes `&lt;`, and unescaping gives the input back | not executed | InputSanitizer.SanitizeHtmlAsWrittenDoubleEscapes | InputSanitizer.EscapeHtml, InputSanitizer.EscapeHtmlRoundTrip |
| infrastructure/security/validators.py:44-46 | `can_access_solution` follows the account's assignment relation, which also holds inactive rows | a regular user whose only assignment was just unassigned in the soft-delete store is still admitted | only active assignments grant access | not executed | SecurityValidator.CanAccessSolutionAsWritten, SecurityValidator.UnassignedUserStillAdmitted | SecurityValidator.CanAccessSolution, SecurityValidator.AccessFollowsStore |
| core/use_cases/profile_use_cases.py:121-125 | the password change verifies against the user the repository returns, and the database repository returns users without a password | a user with password `secret123` who gives `secret123` is told the current password is wrong | the stored password is checked | not executed | ProfileUseCases.ChangeUserPasswordOverDatabase, ProfileUseCases.RightPasswordRefusedOverDatabase | ProfileUseCases.ChangeUserPassword, ProfileUseCases.ChangeUserPasswordThenVerify |
| core/use_cases/user_solution_use_cases.py:128 | the solution's enumeration status is compared with the text `'active'` | an active user and an active solution: the assignment is refused | an active solution may be assigned | not executed | UserSolutionUseCases.AssignAsWritten, UserSolutionUseCases.AssignAsWrittenRefuses | UserSolutionUseCases.AssignToUser, UserSolutionUseCases.AssignThenAccess |
| core/use_cases/user_solution_use_cases.py:199 | the same comparison in the access check | an active regular user actively assigned an active solution is denied | such a user has access | not executed | UserSolutionUseCases.CheckAccessAsWritten, UserSolutionUseCases.CheckAccessAsWrittenOnlyAdmins | UserSolutionUseCases.CheckAccess, UserSolutionUseCases.AccessOfRegularUser |
| core/use_cases/user_solution_use_cases.py:84-90 | enumeration members are compared with the filter texts | filtering a user's solutions by type `web_app` returns nothing | keep the solutions whose type and status values equal the texts | not executed | UserSolutionUseCases.FilterAsWritten, UserSolutionUseCases.FilterAsWrittenEmpty | UserSolutionUseCases.FilterUserSolutions, UserSolutionUseCases.FilterKeepsMatching |
| core/entities/user.py:60-62 | the username character test reads `ValidationConstants.USERNAME_REGEX`, which `core/constants.py` does not define | building a user named `alice` raises an attribute error instead of succeeding | test the characters against a username pattern | not executed | UserEntity.UsernameCheckAsWritten, UserEntity.UsernameAsWrittenRefusesValid | UserEntity.UsernameProblem, UserEntity.Validate |
