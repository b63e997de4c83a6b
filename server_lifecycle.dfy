/**
 * The activity's `server` field: the on/off toggle offered by the UI and
 * the stop on `onDestroy`. Binding and closing sockets belong to the HTTP
 * library; a server here only records whether it is listening.
 */
module ServerLifecycle {

  /** An `MJPEGServer` as the activity sees it: its port and whether it listens. */
  class MJPEGServer {
    const port: int
    var running: bool

    constructor (port: int)
      ensures this.port == port && !running
    {
      this.port := port;
      running := false;
    }

    /** `startServer()`: starts listening. */
    method StartServer()
      modifies this
      ensures running
    {
      running := true;
    }

    /** `stopServer()`: stops listening. */
    method StopServer()
      modifies this
      ensures !running
    {
      running := false;
    }
  }

  class MainActivity {
    const serverPort: int
    var server: MJPEGServer?

    constructor ()
      ensures serverPort == 8080 && server == null
      ensures Valid()
    {
      serverPort := 8080;
      server := null;
    }

    /** `serverRunning = server != null`, what the UI shows. */
    predicate ServerRunning()
      reads this
    {
      server != null
    }

    /** A server the activity holds is listening on the activity's port. */
    ghost predicate Valid()
      reads this, server
    {
      server != null ==> server.running && server.port == serverPort
    }

    /**
     * `onToggleServer`: with no server, creates one on `serverPort` and
     * starts it; otherwise stops the server it has and forgets it.
     */
    method OnToggleServer()
      modifies this, server
      ensures Valid()
      ensures ServerRunning() == !old(ServerRunning())
      ensures old(server) == null ==> server != null && fresh(server)
      ensures old(server) != null ==> server == null && !old(server).running
    {
      if server == null {
        server := new MJPEGServer(serverPort);
        server.StartServer();
      } else {
        server.StopServer();
        server := null;
      }
    }

    /** `onDestroy`: stops the server if there is one, and changes nothing else. */
    method OnDestroy()
      modifies server
      ensures server == old(server)
      ensures server != null ==> !server.running
    {
      if server != null {
        server.StopServer();
      }
    }

    /** Two toggles in a row leave the server on if and only if it was on before. */
    method ToggleTwice()
      modifies this, server
      ensures Valid()
      ensures ServerRunning() == old(ServerRunning())
      ensures old(server) == null ==> server == null
    {
      OnToggleServer();
      OnToggleServer();
    }
  }
}
