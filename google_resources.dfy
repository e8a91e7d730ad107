/** The registry of Pub/Sub clients, one per topic, that the target publishes through:
    a get-or-insert cache keyed by the topic alone, whose loader swallows every failure
    and caches an empty entry in its place. The lock of the original is not modelled:
    calls are taken one at a time. */
module Resources {
  import opened Common

  /** The SDK's TopicName: a project and a topic identifier. */
  datatype TopicName = TopicName(projectId: string, topicId: string)

  /** An opaque handle to a PublisherServiceApiClient. */
  datatype PublisherClient = PublisherClient(handle: nat)

  /** What LoadResources takes from the world around it. `combine` is Path.Combine on two
      non-null paths; `connect` stands for reading the credential file at the given path,
      opening the channel and creating the client with the given publish timeout, and is
      None when any of these throws. */
  datatype Environment = Environment(
    currentDirectory: string,
    combine: (string, string) -> string,
    connect: (string, int) -> Option<PublisherClient>)

  /** The path the credential file is read from. The base is the current directory when
      the configured directory is null or empty, and the configured directory otherwise;
      a null file name makes Path.Combine throw, which is None here. */
  function CredentialPath(file: Option<string>, directory: Option<string>, env: Environment): (path: Option<string>)
    ensures path.Some? <==> file.Some?
  {
    if file.None? then None
    else if IsNullOrEmpty(directory) then Some(env.combine(env.currentDirectory, file.value))
    else Some(env.combine(directory.value, file.value))
  }

  /** What a load yields: the client and the topic name, or None when any step threw.
      The TopicName constructor rejects a null project or topic. */
  function Load(file: Option<string>, directory: Option<string>, project: Option<string>,
                topic: Option<string>, timeout: int, env: Environment): (loaded: Option<(PublisherClient, TopicName)>)
    ensures loaded.Some? ==> file.Some? && project.Some? && topic.Some?
    ensures loaded.Some? ==> loaded.value.1.projectId == project.value && loaded.value.1.topicId == topic.value
    ensures loaded.Some? ==> env.connect(CredentialPath(file, directory, env).value, timeout) == Some(loaded.value.0)
  {
    var path := CredentialPath(file, directory, env);
    if path.None? then None
    else
      var client := env.connect(path.value, timeout);
      if client.None? || project.None? || topic.None? then None
      else Some((client.value, TopicName(project.value, topic.value)))
  }

  /** A null and an empty directory name the same credential file, and the current
      directory matters only when no directory is configured. */
  lemma CredentialDirectory(file: Option<string>, directory: Option<string>, env: Environment, cwd: string)
    ensures CredentialPath(file, Some(""), env) == CredentialPath(file, None, env)
    ensures !IsNullOrEmpty(directory) ==>
      CredentialPath(file, directory, env) == CredentialPath(file, directory, env.(currentDirectory := cwd))
  {
  }

  class GoogleResources {
    var publisherServiceApiClient: Option<PublisherClient>
    var topic: Option<TopicName>

    constructor ()
      ensures publisherServiceApiClient == None && topic == None
    {
      publisherServiceApiClient := None;
      topic := None;
    }

    /** Both fields are set, or neither. */
    ghost predicate Complete()
      reads this
    {
      publisherServiceApiClient.Some? <==> topic.Some?
    }

    /** LoadResources: a fresh object whose fields hold the loaded client and topic name,
        or stay null when any step threw (the exception is logged and swallowed). */
    static method LoadResources(file: Option<string>, directory: Option<string>, project: Option<string>,
                                topic: Option<string>, timeout: int, env: Environment)
      returns (r: GoogleResources)
      ensures fresh(r)
      ensures var loaded := Load(file, directory, project, topic, timeout, env);
        && r.publisherServiceApiClient == (if loaded.Some? then Some(loaded.value.0) else None)
        && r.topic == (if loaded.Some? then Some(loaded.value.1) else None)
      ensures r.Complete()
    {
      r := new GoogleResources();
      var path := CredentialPath(file, directory, env);
      if path.None? {
        return;
      }
      var client := env.connect(path.value, timeout);
      if client.None? || project.None? || topic.None? {
        return;
      }
      r.topic := Some(TopicName(project.value, topic.value));
      r.publisherServiceApiClient := client;
    }
  }

  /** The static dictionary behind Instance, null until the first insertion. */
  class Registry {
    var mInstance: Option<map<string, GoogleResources>>

    constructor ()
      ensures mInstance == None && Valid()
    {
      mInstance := None;
    }

    /** The entries, with a null dictionary read as empty. */
    function Entries(): map<string, GoogleResources>
      reads this
    {
      if mInstance.Some? then mInstance.value else map[]
    }

    /** Every cached entry has both fields set or neither, and a set topic name names the
        topic the entry is cached under. */
    ghost predicate Valid()
      reads this, Entries().Values
    {
      forall key :: key in Entries() ==>
        && Entries()[key].Complete()
        && (Entries()[key].topic.Some? ==> Entries()[key].topic.value.topicId == key)
    }

    /** Instance: the entry for `topic`, loading and adding it when it is absent. A null
        topic throws: in ContainsKey when the dictionary exists, otherwise in Add, after the
        dictionary has been created and LoadResources has run. */
    method Instance(file: Option<string>, directory: Option<string>, project: Option<string>,
                    topic: Option<string>, timeout: int, env: Environment)
      returns (r: Result<GoogleResources, Exception>)
      requires Valid()
      modifies this
      ensures Valid()
      ensures r.Ok? && r.value.topic.Some? ==> topic.Some? && r.value.topic.value.topicId == topic.value
      ensures topic.None? ==> r == Err(ArgumentNull) && mInstance == Some(old(Entries()))
      ensures topic.Some? && topic.value in old(Entries()) ==>
        mInstance == old(mInstance) && r == Ok(old(Entries())[topic.value])
      ensures topic.Some? && topic.value !in old(Entries()) ==>
        && r.Ok?
        && fresh(r.value)
        && mInstance == Some(old(Entries())[topic.value := r.value])
        && var loaded := Load(file, directory, project, topic, timeout, env);
           && r.value.publisherServiceApiClient == (if loaded.Some? then Some(loaded.value.0) else None)
           && r.value.topic == (if loaded.Some? then Some(loaded.value.1) else None)
    {
      if topic.None? {
        if mInstance.Some? {
          return Err(ArgumentNull);
        }
        mInstance := Some(map[]);
        var _ := GoogleResources.LoadResources(file, directory, project, topic, timeout, env);
        return Err(ArgumentNull);
      }
      var key := topic.value;
      if !(mInstance.Some? && key in mInstance.value) {
        if mInstance.None? {
          mInstance := Some(map[]);
        }
        ghost var before := mInstance.value;
        var loaded := GoogleResources.LoadResources(file, directory, project, topic, timeout, env);
        mInstance := Some(mInstance.value[key := loaded]);
        forall k | k in Entries()
          ensures Entries()[k].Complete()
          ensures Entries()[k].topic.Some? ==> Entries()[k].topic.value.topicId == k
        {
          if k != key {
            assert Entries()[k] == before[k] && k in old(Entries());
          }
        }
      }
      assert key in Entries() && Entries()[key] == mInstance.value[key];
      r := Ok(mInstance.value[key]);
    }

    /** The key is the topic alone: once a topic is cached, a second call with any other
        file, directory, project, timeout or environment returns the same object and leaves
        the dictionary as it is, so a failed load is never retried. */
    method InstanceTwice(topic: string,
                         file1: Option<string>, directory1: Option<string>, project1: Option<string>,
                         timeout1: int, env1: Environment,
                         file2: Option<string>, directory2: Option<string>, project2: Option<string>,
                         timeout2: int, env2: Environment)
      returns (first: GoogleResources, second: GoogleResources)
      requires Valid()
      modifies this
      ensures Valid()
      ensures first == second
      ensures topic in Entries() && Entries()[topic] == first
      ensures topic in old(Entries()) ==> mInstance == old(mInstance) && first == old(Entries())[topic]
      ensures topic !in old(Entries()) ==>
        && fresh(first)
        && Entries() == old(Entries())[topic := first]
        && (Load(file1, directory1, project1, Some(topic), timeout1, env1).None? ==>
              first.publisherServiceApiClient == None && first.topic == None)
    {
      var r1 := Instance(file1, directory1, project1, Some(topic), timeout1, env1);
      var r2 := Instance(file2, directory2, project2, Some(topic), timeout2, env2);
      first, second := r1.value, r2.value;
    }
  }
}
