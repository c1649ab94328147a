/** The setup script `create_openai_assistant.py`: where the API key comes from, the
    vector-store steps that are stubbed out, and the configuration its `main` saves. */
module AssistantSetup {
  import opened Wrappers
  import opened Strings
  import opened AssistantConfig

  /** `load_api_key`: the key file's text with surrounding whitespace stripped when the file
      exists (`keyFile` is its text), otherwise the `OPENAI_API_KEY` environment variable. */
  function LoadApiKey(keyFile: Option<string>, env: Option<string>): (key: Option<string>)
    ensures keyFile.Some? ==> key.Some? && key.value == Strip(keyFile.value)
    ensures keyFile.None? ==> key == env
  {
    if keyFile.Some? then Some(Strip(keyFile.value)) else env
  }

  /** `if not api_key`: a missing or empty key makes `main` exit. */
  predicate HasKey(key: Option<string>) {
    key.Some? && key.value != []
  }

  /** A loaded key never starts or ends with whitespace when it comes from the file. */
  lemma KeyFileStripped(keyFile: string, env: Option<string>)
    ensures var key := LoadApiKey(Some(keyFile), env).value;
      key == [] || (!IsSpace(key[0]) && !IsSpace(key[|key| - 1]))
  {
  }

  /** A key file holding only whitespace hides the environment variable: the key is empty
      and `main` exits, whatever `OPENAI_API_KEY` holds. */
  lemma {:induction false} BlankKeyFileHidesEnv(keyFile: string, env: Option<string>)
    requires forall k :: 0 <= k < |keyFile| ==> IsSpace(keyFile[k])
    ensures !HasKey(LoadApiKey(Some(keyFile), env))
  {
    StripBlank(keyFile);
  }

  /** `create_vector_store`: the step is skipped and no store is returned. */
  function CreateVectorStore(assistantId: string): (store: Option<string>)
    ensures store.None?
  {
    None
  }

  /** `upload_files_to_vector_store`: no file is uploaded, with or without a store. */
  function UploadFiles(vectorStoreId: Option<string>): (uploaded: seq<string>)
    ensures uploaded == []
  {
    if vectorStoreId.None? then [] else []
  }

  /** `main`: `None` where it exits for want of a key; otherwise the text it saves, given the
      ids the service returned for the new assistant and thread. */
  method Setup(keyFile: Option<string>, env: Option<string>, assistantId: string, threadId: string)
    returns (saved: Option<string>)
    ensures saved.Some? <==> HasKey(LoadApiKey(keyFile, env))
    ensures saved.Some? ==> saved.value == ConfigText(assistantId, threadId, None)
  {
    var key := LoadApiKey(keyFile, env);
    if !HasKey(key) {
      return None;
    }
    var store := CreateVectorStore(assistantId);
    var uploaded := UploadFiles(store);
    var vsId: Option<string> := if store.Some? then store else None;
    saved := Some(ConfigText(assistantId, threadId, vsId));
  }

  /** What the setup saves always reads back with `VECTOR_STORE_ID` set to `none`. */
  lemma SetupSavesNoVectorStore(assistantId: string, threadId: string)
    requires SafeId(assistantId) && SafeId(threadId)
    ensures var config := ConfigOf(Lines(ConfigText(assistantId, threadId, CreateVectorStore(assistantId))));
      "VECTOR_STORE_ID" in config && config["VECTOR_STORE_ID"] == "none"
  {
    ConfigRoundTrip(assistantId, threadId, None);
  }
}
